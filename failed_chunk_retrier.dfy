/** Retry bookkeeping for chunks whose analysis failed: the backoff
    policy, sorting error messages into failure types, deciding whether a
    chunk is tried again, and the per-chunk history of failures that sets
    the next delay and steers the choice of key. Waiting and calling the
    service again are not part of this model; the keys the key manager
    offers in turn are an input. */
module ChunkRetry {
  import opened Common

  // ---------------------------------------------------------------------
  // Backoff
  // ---------------------------------------------------------------------

  /** `RetryStrategy`; the exponential base is a whole number here. */
  datatype RetryStrategy = RetryStrategy(maxRetries: int, baseDelay: int, maxDelay: int, expBase: nat)

  const DefaultStrategy := RetryStrategy(3, 5, 60, 2)

  function Pow(b: nat, n: nat): nat
  {
    if n == 0 then 1 else b * Pow(b, n - 1)
  }

  /** `get_delay`: `base_delay * exponential_base ** attempt`, capped at
      `max_delay`. */
  function GetDelay(s: RetryStrategy, attempt: nat): int
  {
    Min(s.baseDelay * Pow(s.expBase, attempt), s.maxDelay)
  }

  lemma PowStep(b: nat, n: nat)
    requires b >= 1
    ensures Pow(b, n) <= Pow(b, n + 1)
  {
    var p := Pow(b, n);
    assert Pow(b, n + 1) == b * p;
    assert b * p == p + (b - 1) * p;
  }

  lemma {:induction false} PowMono(b: nat, m: nat, n: nat)
    requires b >= 1 && m <= n
    ensures Pow(b, m) <= Pow(b, n)
    decreases n
  {
    if m < n {
      PowMono(b, m, n - 1);
      PowStep(b, n - 1);
    }
  }

  /** The delay never exceeds `max_delay`, and with a non-negative base
      delay and a base of at least 1 it never shrinks from one attempt to a
      later one. */
  lemma GetDelayMonotone(s: RetryStrategy, m: nat, n: nat)
    requires s.baseDelay >= 0 && s.expBase >= 1 && m <= n
    ensures GetDelay(s, m) <= GetDelay(s, n) <= s.maxDelay
  {
    PowMono(s.expBase, m, n);
    assert s.baseDelay * Pow(s.expBase, m) <= s.baseDelay * Pow(s.expBase, n) by {
      assert s.baseDelay * (Pow(s.expBase, n) - Pow(s.expBase, m)) >= 0;
    }
  }

  /** With the default strategy the delays are 5, 10, 20, 40 seconds, then
      60 from the fifth attempt on, always between 5 and 60. */
  lemma DefaultDelays(attempt: nat)
    ensures 5 <= GetDelay(DefaultStrategy, attempt) <= 60
    ensures attempt >= 4 ==> GetDelay(DefaultStrategy, attempt) == 60
    ensures GetDelay(DefaultStrategy, 0) == 5 && GetDelay(DefaultStrategy, 3) == 40
  {
    GetDelayMonotone(DefaultStrategy, 0, attempt);
    if attempt >= 4 {
      PowMono(2, 4, attempt);
      assert Pow(2, 4) == 16;
    }
    assert Pow(2, 3) == 8;
  }

  // ---------------------------------------------------------------------
  // Failure types
  // ---------------------------------------------------------------------

  datatype FailureType = RateLimit | EmptyResponse | Timeout | ParseError | ApiError | Unknown

  /** The message fragments of each failure type, in the order they are tried. */
  const FailurePatterns: seq<(FailureType, seq<string>)> := [
    (RateLimit, ["rate limit", "429", "quota exceeded", "too many requests"]),
    (EmptyResponse, ["empty response", "no content", "0 bytes", "blank response"]),
    (Timeout, ["timeout", "timed out", "deadline exceeded"]),
    (ParseError, ["json", "parse", "decode", "invalid format"]),
    (ApiError, ["api error", "500", "502", "503", "504", "service unavailable"])
  ]

  /** Some pattern occurs in `s`. */
  predicate AnyOccurs(s: string, patterns: seq<string>)
  {
    patterns != [] && (Contains(s, patterns[0]) || AnyOccurs(s, patterns[1..]))
  }

  lemma {:induction false} AnyOccursIff(s: string, patterns: seq<string>)
    ensures AnyOccurs(s, patterns) <==> exists i :: 0 <= i < |patterns| && Contains(s, patterns[i])
  {
    if patterns != [] {
      AnyOccursIff(s, patterns[1..]);
      if AnyOccurs(s, patterns[1..]) {
        var i :| 0 <= i < |patterns[1..]| && Contains(s, patterns[1..][i]);
        assert Contains(s, patterns[i + 1]);
      }
      if exists i :: 0 <= i < |patterns| && Contains(s, patterns[i]) {
        var i :| 0 <= i < |patterns| && Contains(s, patterns[i]);
        assert i == 0 || Contains(s, patterns[1..][i - 1]);
      }
    }
  }

  /** The type of the first entry of `table` one of whose patterns occurs in `s`. */
  function FirstMatchingType(s: string, table: seq<(FailureType, seq<string>)>): FailureType
  {
    if table == [] then Unknown
    else if AnyOccurs(s, table[0].1) then table[0].0
    else FirstMatchingType(s, table[1..])
  }

  /** `categorize_failure`: the lower-cased message against the pattern table. */
  function CategorizeFailure(msg: string): FailureType
  {
    FirstMatchingType(Lower(msg), FailurePatterns)
  }

  /** The type found is that of the first entry with a matching pattern, and
      `Unknown` exactly when no entry has one. */
  lemma {:induction false} FirstMatchingTypeSpec(s: string, table: seq<(FailureType, seq<string>)>)
    requires forall i :: 0 <= i < |table| ==> table[i].0 != Unknown
    ensures var r := FirstMatchingType(s, table);
      && (r == Unknown <==> forall i :: 0 <= i < |table| ==> !AnyOccurs(s, table[i].1))
      && (r != Unknown ==> exists i :: (0 <= i < |table| && table[i].0 == r && AnyOccurs(s, table[i].1) &&
            forall j :: 0 <= j < i ==> !AnyOccurs(s, table[j].1)))
  {
    if table != [] && !AnyOccurs(s, table[0].1) {
      var t := table[1..];
      FirstMatchingTypeSpec(s, t);
      var r := FirstMatchingType(s, table);
      if r != Unknown {
        var i :| 0 <= i < |t| && t[i].0 == r && AnyOccurs(s, t[i].1) &&
          forall j :: 0 <= j < i ==> !AnyOccurs(s, t[j].1);
        assert table[i + 1] == t[i];
        forall j | 0 <= j < i + 1
          ensures !AnyOccurs(s, table[j].1)
        {
          if j > 0 {
            assert table[j] == t[j - 1];
          }
        }
      }
      forall i | 0 <= i < |t| ensures table[i + 1] == t[i] { }
    } else if table != [] {
      assert table[0].0 != Unknown;
    }
  }

  /** A message is classed under the first type, in declared order, one of
      whose patterns occurs in the lower-cased message, and as `Unknown`
      when none does. */
  lemma CategorizeFailureSpec(msg: string)
    ensures var r := CategorizeFailure(msg);
      && (r == Unknown <==> forall i :: 0 <= i < |FailurePatterns| ==> !AnyOccurs(Lower(msg), FailurePatterns[i].1))
      && (r != Unknown ==> exists i :: (0 <= i < |FailurePatterns| && FailurePatterns[i].0 == r &&
            AnyOccurs(Lower(msg), FailurePatterns[i].1) &&
            forall j :: 0 <= j < i ==> !AnyOccurs(Lower(msg), FailurePatterns[j].1)))
  {
    FirstMatchingTypeSpec(Lower(msg), FailurePatterns);
  }

  // ---------------------------------------------------------------------
  // Whether to retry
  // ---------------------------------------------------------------------

  /** The decision of `should_retry` once the failure type is known, as
      written: the "empty responses up to 2 times" branch falls through to
      the default, so an empty response is retried at any attempt below the
      limit. */
  function ShouldRetryForAsWritten(s: RetryStrategy, ft: FailureType, attempt: int): bool
  {
    if attempt >= s.maxRetries then false
    else if ft == RateLimit || ft == Timeout then true
    else if ft == EmptyResponse && attempt < 2 then true
    else if ft == ApiError then true
    else if ft == ParseError && attempt > 0 then false
    else true
  }

  /** The decision as evidently intended: empty responses are retried only
      on the first two attempts. */
  function ShouldRetryFor(s: RetryStrategy, ft: FailureType, attempt: int): bool
  {
    if attempt >= s.maxRetries then false
    else if ft == RateLimit || ft == Timeout then true
    else if ft == EmptyResponse then attempt < 2
    else if ft == ApiError then true
    else if ft == ParseError && attempt > 0 then false
    else true
  }

  /** `should_retry(chunk_id, error_message, attempt)` as written: the
      message is categorized and the as-written rule applied. */
  function ShouldRetry(s: RetryStrategy, msg: string, attempt: int): bool
  {
    ShouldRetryForAsWritten(s, CategorizeFailure(msg), attempt)
  }

  /** `should_retry` with the empty-response limit the source's comment
      describes. */
  function ShouldRetryIntended(s: RetryStrategy, msg: string, attempt: int): bool
  {
    ShouldRetryFor(s, CategorizeFailure(msg), attempt)
  }

  /** Never at or past the limit; below it, always for rate limits,
      timeouts and service errors, for parse errors only on the first
      attempt, and for anything else. */
  lemma ShouldRetrySpec(s: RetryStrategy, ft: FailureType, attempt: int)
    ensures attempt >= s.maxRetries ==> !ShouldRetryFor(s, ft, attempt)
    ensures attempt < s.maxRetries && ft in {RateLimit, Timeout, ApiError} ==> ShouldRetryFor(s, ft, attempt)
    ensures ft == ParseError ==> (ShouldRetryFor(s, ft, attempt) <==> attempt < s.maxRetries && attempt <= 0)
    ensures ft == EmptyResponse ==> (ShouldRetryFor(s, ft, attempt) <==> attempt < Min(2, s.maxRetries))
    ensures ft == Unknown ==> (ShouldRetryFor(s, ft, attempt) <==> attempt < s.maxRetries)
  {
  }

  /** The two decisions differ only for empty responses from the third
      attempt on, below the limit: with the default limit of 3, a third
      empty response is retried as written. */
  lemma ShouldRetryEmptyResponseDiffers(s: RetryStrategy, ft: FailureType, attempt: int)
    ensures ShouldRetryForAsWritten(s, ft, attempt) != ShouldRetryFor(s, ft, attempt) <==>
      ft == EmptyResponse && 2 <= attempt < s.maxRetries
    ensures ShouldRetryForAsWritten(DefaultStrategy, EmptyResponse, 2)
    ensures !ShouldRetryFor(DefaultStrategy, EmptyResponse, 2)
  {
  }

  /** On an error message: as written, a retry is refused only at or past
      the limit and for a parse error after the first attempt; as intended,
      also for an empty response from the third attempt on. */
  lemma ShouldRetryDecision(s: RetryStrategy, msg: string, attempt: int)
    ensures ShouldRetry(s, msg, attempt) <==>
      attempt < s.maxRetries && !(CategorizeFailure(msg) == ParseError && attempt > 0)
    ensures ShouldRetryIntended(s, msg, attempt) <==>
      attempt < s.maxRetries && !(CategorizeFailure(msg) == ParseError && attempt > 0) &&
      !(CategorizeFailure(msg) == EmptyResponse && attempt >= 2)
  {
    ShouldRetrySpec(s, CategorizeFailure(msg), attempt);
    ShouldRetryEmptyResponseDiffers(s, CategorizeFailure(msg), attempt);
  }

  // ---------------------------------------------------------------------
  // History
  // ---------------------------------------------------------------------

  /** One entry of `retry_history[chunk_id]`. */
  datatype FailureRecord = FailureRecord(timestamp: int, apiKey: string, error: string, failureType: FailureType)

  datatype Stats = Stats(
    totalRetriedChunks: nat,
    totalRetryAttempts: nat,
    failureTypes: map<FailureType, nat>,
    chunksWithMultipleRetries: nat)

  /** The delay before retrying a chunk with failure history `h` (`None`
      when it has none): the backoff for the number of failures, at least 30
      seconds after a rate limit and 10 after an empty response. */
  function RetryDelay(s: RetryStrategy, h: Option<seq<FailureRecord>>): (r: int)
    ensures h.None? ==> r == s.baseDelay
    ensures h.Some? ==> r >= GetDelay(s, |h.value|)
    ensures h.Some? && h.value != [] && h.value[|h.value| - 1].failureType == RateLimit ==> r >= 30
    ensures h.Some? && h.value != [] && h.value[|h.value| - 1].failureType == EmptyResponse ==> r >= 10
    ensures h.Some? && (h.value == [] || h.value[|h.value| - 1].failureType !in {RateLimit, EmptyResponse}) ==>
      r == GetDelay(s, |h.value|)
  {
    if h.None? then s.baseDelay
    else
      var delay := GetDelay(s, |h.value|);
      if h.value == [] then delay
      else
        var last := h.value[|h.value| - 1].failureType;
        if last == RateLimit then Max(delay, 30)
        else if last == EmptyResponse then Max(delay, 10)
        else delay
  }

  /** Among the keys offered, the first that is set, not excluded and (when
      `untried`) not among `tried`. */
  function FirstOffered(offered: seq<Option<string>>, excluded: seq<string>, tried: set<string>, untried: bool)
    : (r: Option<string>)
    ensures r.Some? ==> Some(r.value) in offered && r.value != "" && r.value !in excluded
    ensures r.Some? && untried ==> r.value !in tried
    ensures r.None? <==> forall i :: 0 <= i < |offered| ==>
      !(offered[i].Some? && offered[i].value != "" && offered[i].value !in excluded &&
        (untried ==> offered[i].value !in tried))
  {
    if offered == [] then None
    else
      var o := offered[0];
      if o.Some? && o.value != "" && o.value !in excluded && (untried ==> o.value !in tried) then o
      else
        var r := FirstOffered(offered[1..], excluded, tried, untried);
        assert forall i :: 1 <= i < |offered| ==> offered[i] == offered[1..][i - 1];
        r
  }

  /** The key `select_retry_api` picks: an untried one if any is offered,
      else any usable one. */
  function SelectFrom(offered: seq<Option<string>>, excluded: seq<string>, tried: set<string>): Option<string>
  {
    var u := FirstOffered(offered, excluded, tried, true);
    if u.Some? then u else FirstOffered(offered, excluded, tried, false)
  }

  /** The key chosen is offered and never excluded; it has been tried for
      the chunk only when every usable key offered has; and no key is
      chosen exactly when none offered is usable. */
  lemma SelectFromSpec(offered: seq<Option<string>>, excluded: seq<string>, tried: set<string>)
    ensures var r := SelectFrom(offered, excluded, tried);
      && (r.Some? ==> Some(r.value) in offered && r.value != "" && r.value !in excluded)
      && (r.Some? && r.value in tried ==> forall i :: (0 <= i < |offered| && offered[i].Some? &&
            offered[i].value != "" && offered[i].value !in excluded) ==> offered[i].value in tried)
      && (r.None? <==> forall i :: 0 <= i < |offered| ==>
            !(offered[i].Some? && offered[i].value != "" && offered[i].value !in excluded))
  {
    var u := FirstOffered(offered, excluded, tried, true);
    var a := FirstOffered(offered, excluded, tried, false);
    if u.None? && a.Some? {
      assert SelectFrom(offered, excluded, tried) == a;
    }
  }

  /** The keys a chunk's failures were recorded against. */
  function TriedKeys(h: seq<FailureRecord>): set<string>
  {
    set i | 0 <= i < |h| :: h[i].apiKey
  }

  /** Number of recorded failures over the chunks `ids`. */
  function Attempts(ids: seq<string>, history: map<string, seq<FailureRecord>>): nat
    requires forall id :: id in ids ==> id in history
  {
    if ids == [] then 0 else |history[ids[0]]| + Attempts(ids[1..], history)
  }

  /** Number of chunks among `ids` with more than one recorded failure. */
  function Multiple(ids: seq<string>, history: map<string, seq<FailureRecord>>): nat
    requires forall id :: id in ids ==> id in history
  {
    if ids == [] then 0 else (if |history[ids[0]]| > 1 then 1 else 0) + Multiple(ids[1..], history)
  }

  /** Number of records of type `t` in `h`. */
  function TypeCount(h: seq<FailureRecord>, t: FailureType): nat
  {
    if h == [] then 0 else (if h[|h| - 1].failureType == t then 1 else 0) + TypeCount(h[..|h| - 1], t)
  }

  /** Number of records of type `t` over the chunks `ids`. */
  function TypeTotal(ids: seq<string>, history: map<string, seq<FailureRecord>>, t: FailureType): nat
    requires forall id :: id in ids ==> id in history
  {
    if ids == [] then 0 else TypeCount(history[ids[0]], t) + TypeTotal(ids[1..], history, t)
  }

  /** The `failure_counts` loop over one chunk's records. */
  function CountRecords(m: map<FailureType, nat>, h: seq<FailureRecord>): map<FailureType, nat>
  {
    if h == [] then m
    else
      var m' := CountRecords(m, h[..|h| - 1]);
      var t := h[|h| - 1].failureType;
      m'[t := (if t in m' then m'[t] else 0) + 1]
  }

  /** The `failure_counts` loop over the chunks `ids`, in order. */
  function CountChunks(ids: seq<string>, history: map<string, seq<FailureRecord>>): map<FailureType, nat>
    requires forall id :: id in ids ==> id in history
  {
    if ids == [] then map[]
    else CountRecords(CountChunks(ids[..|ids| - 1], history), history[ids[|ids| - 1]])
  }

  function Get(m: map<FailureType, nat>, t: FailureType): nat
  {
    if t in m then m[t] else 0
  }

  lemma {:induction false} CountRecordsSpec(m: map<FailureType, nat>, h: seq<FailureRecord>, t: FailureType)
    ensures Get(CountRecords(m, h), t) == Get(m, t) + TypeCount(h, t)
    ensures t in CountRecords(m, h) <==> t in m || TypeCount(h, t) > 0
  {
    if h != [] {
      CountRecordsSpec(m, h[..|h| - 1], t);
    }
  }

  lemma {:induction false} TypeTotalSnoc(ids: seq<string>, history: map<string, seq<FailureRecord>>, t: FailureType)
    requires ids != [] && forall id :: id in ids ==> id in history
    ensures TypeTotal(ids, history, t) == TypeTotal(ids[..|ids| - 1], history, t) + TypeCount(history[ids[|ids| - 1]], t)
  {
    if |ids| > 1 {
      TypeTotalSnoc(ids[1..], history, t);
      assert ids[1..][..|ids| - 2] == ids[..|ids| - 1][1..];
    }
  }

  /** The counts loop agrees with counting each type separately: a type is
      a key exactly when some record has it, and maps to its number of
      records. */
  lemma {:induction false} CountChunksSpec(ids: seq<string>, history: map<string, seq<FailureRecord>>, t: FailureType)
    requires forall id :: id in ids ==> id in history
    ensures t in CountChunks(ids, history) <==> TypeTotal(ids, history, t) > 0
    ensures Get(CountChunks(ids, history), t) == TypeTotal(ids, history, t)
  {
    if ids != [] {
      var front := ids[..|ids| - 1];
      assert forall id :: id in front ==> id in ids;
      CountChunksSpec(front, history, t);
      CountRecordsSpec(CountChunks(front, history), history[ids[|ids| - 1]], t);
      TypeTotalSnoc(ids, history, t);
    }
  }

  function StatsOf(ids: seq<string>, history: map<string, seq<FailureRecord>>): Stats
    requires forall id :: id in ids ==> id in history
  {
    Stats(|ids|, Attempts(ids, history), CountChunks(ids, history), Multiple(ids, history))
  }

  /** Distinct chunk ids listing exactly the keys of the history. */
  ghost predicate HistoryOk(ids: seq<string>, history: map<string, seq<FailureRecord>>)
  {
    && (forall i, j :: 0 <= i < j < |ids| ==> ids[i] != ids[j])
    && (forall id :: id in history <==> id in ids)
  }

  /** The history after recording failure `rec` for chunk `id`. */
  function Recorded(ids: seq<string>, history: map<string, seq<FailureRecord>>, id: string, rec: FailureRecord)
    : (seq<string>, map<string, seq<FailureRecord>>)
  {
    if id in history then (ids, history[id := history[id] + [rec]])
    else (ids + [id], history[id := [rec]])
  }

  lemma {:induction false} SumsOther(ids: seq<string>, h: map<string, seq<FailureRecord>>,
    h': map<string, seq<FailureRecord>>, t: FailureType)
    requires forall id :: id in ids ==> id in h && id in h' && h'[id] == h[id]
    ensures Attempts(ids, h') == Attempts(ids, h) && Multiple(ids, h') == Multiple(ids, h)
    ensures TypeTotal(ids, h', t) == TypeTotal(ids, h, t)
  {
    if ids != [] {
      SumsOther(ids[1..], h, h', t);
    }
  }

  /** The sums over distinct `ids` after one more record for `id`. */
  lemma {:induction false} SumsOne(ids: seq<string>, h: map<string, seq<FailureRecord>>, id: string,
    rec: FailureRecord, t: FailureType)
    requires id in h && (forall x :: x in ids ==> x in h)
    requires forall i, j :: 0 <= i < j < |ids| ==> ids[i] != ids[j]
    ensures var h' := h[id := h[id] + [rec]];
      && Attempts(ids, h') == Attempts(ids, h) + (if id in ids then 1 else 0)
      && Multiple(ids, h') == Multiple(ids, h) + (if id in ids && |h[id]| == 1 then 1 else 0)
      && TypeTotal(ids, h', t) == TypeTotal(ids, h, t) + (if id in ids && rec.failureType == t then 1 else 0)
  {
    var h' := h[id := h[id] + [rec]];
    if ids != [] {
      var rest := ids[1..];
      assert forall i, j :: 0 <= i < j < |rest| ==> rest[i] != rest[j] by {
        forall i, j | 0 <= i < j < |rest| ensures rest[i] != rest[j] {
          assert rest[i] == ids[i + 1] && rest[j] == ids[j + 1];
        }
      }
      SumsOne(rest, h, id, rec, t);
      if ids[0] == id {
        assert id !in rest by {
          forall j | 0 <= j < |rest| ensures rest[j] != id {
            assert rest[j] == ids[j + 1];
          }
        }
        assert (h[id] + [rec])[..|h[id]|] == h[id];
        SumsOther(rest, h, h', t);
      } else {
        assert h'[ids[0]] == h[ids[0]];
      }
      assert id in ids <==> ids[0] == id || id in rest;
    }
  }

  /** The sums over `ids + [id]`. */
  lemma {:induction false} SumsAppend(ids: seq<string>, h: map<string, seq<FailureRecord>>, id: string, t: FailureType)
    requires id in h && forall x :: x in ids ==> x in h
    ensures Attempts(ids + [id], h) == Attempts(ids, h) + |h[id]|
    ensures Multiple(ids + [id], h) == Multiple(ids, h) + (if |h[id]| > 1 then 1 else 0)
    ensures TypeTotal(ids + [id], h, t) == TypeTotal(ids, h, t) + TypeCount(h[id], t)
  {
    if ids != [] {
      assert (ids + [id])[1..] == ids[1..] + [id];
      SumsAppend(ids[1..], h, id, t);
    } else {
      assert [id][1..] == [];
    }
  }

  /** Recording a failure keeps the ids distinct and equal to the keys. */
  lemma RecordedHistoryOk(ids: seq<string>, history: map<string, seq<FailureRecord>>, id: string, rec: FailureRecord)
    requires HistoryOk(ids, history)
    ensures HistoryOk(Recorded(ids, history, id, rec).0, Recorded(ids, history, id, rec).1)
  {
    if id !in history {
      var ids' := ids + [id];
      forall i, j | 0 <= i < j < |ids'|
        ensures ids'[i] != ids'[j]
      {
        assert ids'[i] == ids[i];
        if j == |ids| {
          assert ids[i] in ids;
        }
      }
    }
  }

  /** Recording a failure adds one attempt and one failure of its type,
      counts its chunk among the retried ones when it is new, and among
      those with several failures when this is its second. */
  lemma RecordedStats(ids: seq<string>, history: map<string, seq<FailureRecord>>, id: string, rec: FailureRecord, t: FailureType)
    requires HistoryOk(ids, history)
    ensures var (ids', h') := Recorded(ids, history, id, rec);
      var s, s' := StatsOf(ids, history), StatsOf(ids', h');
      && HistoryOk(ids', h')
      && s'.totalRetriedChunks == s.totalRetriedChunks + (if id in history then 0 else 1)
      && s'.totalRetryAttempts == s.totalRetryAttempts + 1
      && s'.chunksWithMultipleRetries == s.chunksWithMultipleRetries + (if id in history && |history[id]| == 1 then 1 else 0)
      && Get(s'.failureTypes, t) == Get(s.failureTypes, t) + (if rec.failureType == t then 1 else 0)
  {
    RecordedHistoryOk(ids, history, id, rec);
    var (ids', h') := Recorded(ids, history, id, rec);
    if id in history {
      SumsOne(ids, history, id, rec, t);
    } else {
      SumsOther(ids, history, h', t);
      SumsAppend(ids, h', id, t);
      assert [rec][..0] == [];
    }
    CountChunksSpec(ids', h', t);
    CountChunksSpec(ids, history, t);
  }

  /** `FailedChunkRetrier`: the strategy and the failure history, a
      dictionary (`history`) whose keys in insertion order are `ids`. */
  class FailedChunkRetrier {
    var strategy: RetryStrategy
    var ids: seq<string>
    var history: map<string, seq<FailureRecord>>

    ghost predicate Valid()
      reads this
    {
      HistoryOk(ids, history)
    }

    constructor()
      ensures Valid() && strategy == DefaultStrategy && ids == [] && history == map[]
    {
      strategy := DefaultStrategy;
      ids := [];
      history := map[];
    }

    /** `record_failure`: one record, classed by its message, at the end of
      the chunk's list (a new list for a new chunk). */
    method RecordFailure(chunkId: string, apiKey: string, msg: string, now: int)
      requires Valid()
      modifies this
      ensures Valid() && strategy == old(strategy)
      ensures (ids, history) == Recorded(old(ids), old(history), chunkId,
        FailureRecord(now, apiKey, msg, CategorizeFailure(msg)))
    {
      var rec := FailureRecord(now, apiKey, msg, CategorizeFailure(msg));
      if chunkId !in history {
        ids := ids + [chunkId];
        history := history[chunkId := []];
      }
      history := history[chunkId := history[chunkId] + [rec]];
      assert [] + [rec] == [rec];
      assert history == Recorded(old(ids), old(history), chunkId, rec).1;
      RecordedHistoryOk(old(ids), old(history), chunkId, rec);
    }

    /** `get_retry_delay`. */
    method GetRetryDelay(chunkId: string) returns (delay: int)
      ensures delay == RetryDelay(strategy, if chunkId in history then Some(history[chunkId]) else None)
    {
      if chunkId !in history {
        return strategy.baseDelay;
      }
      var h := history[chunkId];
      delay := GetDelay(strategy, |h|);
      if h != [] {
        var last := h[|h| - 1].failureType;
        if last == RateLimit {
          delay := Max(delay, 30);
        } else if last == EmptyResponse {
          delay := Max(delay, 10);
        }
      }
    }

    /** `select_retry_api`: `offered` holds what the key manager hands out
      on each of the `len(api_keys)` calls (`None` or "" when nothing). */
    method SelectRetryApi(chunkId: string, excluded: seq<string>, offered: seq<Option<string>>)
      returns (key: Option<string>)
      ensures key == SelectFrom(offered, excluded, if chunkId in history then TriedKeys(history[chunkId]) else {})
    {
      var tried: set<string> := {};
      if chunkId in history {
        tried := set i | 0 <= i < |history[chunkId]| :: history[chunkId][i].apiKey;
      }
      var available: seq<string> := [];
      var i := 0;
      while i < |offered|
        invariant 0 <= i <= |offered|
        invariant FirstOffered(offered[..i], excluded, tried, true).None?
        invariant available == [] <==> FirstOffered(offered[..i], excluded, tried, false).None?
        invariant available != [] ==> Some(available[0]) == FirstOffered(offered[..i], excluded, tried, false)
      {
        assert offered[..i + 1] == offered[..i] + [offered[i]];
        FirstOfferedSnoc(offered[..i], offered[i], excluded, tried, true);
        FirstOfferedSnoc(offered[..i], offered[i], excluded, tried, false);
        var o := offered[i];
        if o.Some? && o.value != "" && o.value !in excluded {
          if o.value !in tried {
            assert offered == offered[..i + 1] + offered[i + 1..];
            FirstOfferedPrefix(offered[..i + 1], offered[i + 1..], excluded, tried, true);
            FirstOfferedPrefix(offered[..i + 1], offered[i + 1..], excluded, tried, false);
            return o;
          }
          available := available + [o.value];
        }
        i := i + 1;
      }
      assert offered[..i] == offered;
      if available != [] {
        return Some(available[0]);
      }
      return None;
    }

    /** `get_retry_statistics`. */
    method GetRetryStatistics() returns (stats: Stats)
      requires Valid()
      ensures stats == StatsOf(ids, history)
    {
      var attempts := 0;
      var multiple := 0;
      var counts: map<FailureType, nat> := map[];
      var k := 0;
      while k < |ids|
        invariant 0 <= k <= |ids|
        invariant attempts + Attempts(ids[k..], history) == Attempts(ids, history)
        invariant multiple + Multiple(ids[k..], history) == Multiple(ids, history)
        invariant counts == CountChunks(ids[..k], history)
      {
        var h := history[ids[k]];
        counts := CountInto(counts, h);
        assert ids[..k + 1][..k] == ids[..k];
        attempts := attempts + |h|;
        if |h| > 1 {
          multiple := multiple + 1;
        }
        k := k + 1;
      }
      assert ids[..k] == ids;
      stats := Stats(|ids|, attempts, counts, multiple);
    }

    /** The inner loop of `get_retry_statistics`: one chunk's records added
      to the counts. */
    static method CountInto(counts: map<FailureType, nat>, h: seq<FailureRecord>) returns (r: map<FailureType, nat>)
      ensures r == CountRecords(counts, h)
    {
      r := counts;
      var j := 0;
      while j < |h|
        invariant 0 <= j <= |h|
        invariant r == CountRecords(counts, h[..j])
      {
        var t := h[j].failureType;
        r := r[t := (if t in r then r[t] else 0) + 1];
        assert h[..j + 1][..j] == h[..j];
        j := j + 1;
      }
      assert h[..j] == h;
    }

    /** `clear_history`. */
    method ClearHistory()
      modifies this
      ensures Valid() && strategy == old(strategy) && ids == [] && history == map[]
    {
      ids := [];
      history := map[];
    }
  }

  lemma FirstOfferedSnoc(offered: seq<Option<string>>, o: Option<string>, excluded: seq<string>, tried: set<string>, untried: bool)
    ensures var ok := o.Some? && o.value != "" && o.value !in excluded && (untried ==> o.value !in tried);
      FirstOffered(offered + [o], excluded, tried, untried) ==
        if FirstOffered(offered, excluded, tried, untried).Some? then FirstOffered(offered, excluded, tried, untried)
        else if ok then o else None
  {
    if offered != [] {
      assert (offered + [o])[1..] == offered[1..] + [o];
      FirstOfferedSnoc(offered[1..], o, excluded, tried, untried);
    }
  }

  lemma FirstOfferedPrefix(a: seq<Option<string>>, b: seq<Option<string>>, excluded: seq<string>, tried: set<string>, untried: bool)
    requires FirstOffered(a, excluded, tried, untried).Some?
    ensures FirstOffered(a + b, excluded, tried, untried) == FirstOffered(a, excluded, tried, untried)
  {
    if a != [] {
      assert (a + b)[1..] == a[1..] + b;
      var o := a[0];
      if !(o.Some? && o.value != "" && o.value !in excluded && (untried ==> o.value !in tried)) {
        FirstOfferedPrefix(a[1..], b, excluded, tried, untried);
      }
    }
  }
}
