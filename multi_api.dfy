/** The credential pool of `pdf_processor/api/multi_api_manager.py`: per-key
    status records with counters and cooldowns, classification of error
    messages, round-robin slot acquisition that can skip keys, and failover
    that tries each key at most once per operation.

    Time is an integer clock in seconds passed in as `now`. The operation
    run against a key is given as one `Attempt` per key: within one failover
    call each key is tried at most once, so this loses nothing. Waiting on
    the condition variable is not modelled: an acquisition that finds no key
    gives up at once. */
module MultiApi {
  import opened Common

  /** The error classes of `_categorize_error`, in the order they are checked. */
  datatype Category = PromptBlock | RateLimit | Auth | Server | Network | Unknown

  function Rank(c: Category): nat
  {
    match c
    case PromptBlock => 0
    case RateLimit => 1
    case Auth => 2
    case Server => 3
    case Network => 4
    case Unknown => 5
  }

  /** The lower-case fragments that select each class. */
  function Markers(c: Category): seq<string>
  {
    match c
    case PromptBlock => ["prompt blocked", "block_reason"]
    case RateLimit => ["429", "rate limit", "too many requests", "quota", "resource has been exhausted"]
    case Auth => ["403", "forbidden", "permission", "401", "unauthorized"]
    case Server => ["5xx", "internal", "unavailable", "deadline", "server"]
    case Network => ["timeout", "timed out", "connection"]
    case Unknown => []
  }

  /** Some fragment of `ms` occurs in `em`. */
  ghost predicate Mentions(em: string, ms: seq<string>)
  {
    exists i :: 0 <= i < |ms| && Contains(em, ms[i])
  }

  lemma MentionsTwo(em: string, a: string, b: string)
    ensures Mentions(em, [a, b]) <==> Contains(em, a) || Contains(em, b)
  {
    var ms := [a, b];
    if Mentions(em, ms) {
      var i :| 0 <= i < |ms| && Contains(em, ms[i]);
      assert i == 0 || i == 1;
    }
    if Contains(em, a) { assert ms[0] == a; }
    if Contains(em, b) { assert ms[1] == b; }
  }

  lemma MentionsThree(em: string, a: string, b: string, c: string)
    ensures Mentions(em, [a, b, c]) <==> Contains(em, a) || Contains(em, b) || Contains(em, c)
  {
    var ms := [a, b, c];
    if Mentions(em, ms) {
      var i :| 0 <= i < |ms| && Contains(em, ms[i]);
      assert i == 0 || i == 1 || i == 2;
    }
    if Contains(em, a) { assert ms[0] == a; }
    if Contains(em, b) { assert ms[1] == b; }
    if Contains(em, c) { assert ms[2] == c; }
  }

  lemma MentionsFive(em: string, a: string, b: string, c: string, d: string, e: string)
    ensures Mentions(em, [a, b, c, d, e]) <==>
      Contains(em, a) || Contains(em, b) || Contains(em, c) || Contains(em, d) || Contains(em, e)
  {
    var ms := [a, b, c, d, e];
    if Mentions(em, ms) {
      var i :| 0 <= i < |ms| && Contains(em, ms[i]);
      assert i == 0 || i == 1 || i == 2 || i == 3 || i == 4;
    }
    if Contains(em, a) { assert ms[0] == a; }
    if Contains(em, b) { assert ms[1] == b; }
    if Contains(em, c) { assert ms[2] == c; }
    if Contains(em, d) { assert ms[3] == d; }
    if Contains(em, e) { assert ms[4] == e; }
  }

  /** Each class's fragment list, spelled out as the chain of tests. */
  lemma MarkersSpelledOut(em: string)
    ensures Mentions(em, Markers(PromptBlock)) <==>
      Contains(em, "prompt blocked") || Contains(em, "block_reason")
    ensures Mentions(em, Markers(RateLimit)) <==>
      Contains(em, "429") || Contains(em, "rate limit") || Contains(em, "too many requests")
      || Contains(em, "quota") || Contains(em, "resource has been exhausted")
    ensures Mentions(em, Markers(Auth)) <==>
      Contains(em, "403") || Contains(em, "forbidden") || Contains(em, "permission")
      || Contains(em, "401") || Contains(em, "unauthorized")
    ensures Mentions(em, Markers(Server)) <==>
      Contains(em, "5xx") || Contains(em, "internal") || Contains(em, "unavailable")
      || Contains(em, "deadline") || Contains(em, "server")
    ensures Mentions(em, Markers(Network)) <==>
      Contains(em, "timeout") || Contains(em, "timed out") || Contains(em, "connection")
    ensures !Mentions(em, Markers(Unknown))
  {
    MentionsTwo(em, "prompt blocked", "block_reason");
    MentionsFive(em, "429", "rate limit", "too many requests", "quota", "resource has been exhausted");
    MentionsFive(em, "403", "forbidden", "permission", "401", "unauthorized");
    MentionsFive(em, "5xx", "internal", "unavailable", "deadline", "server");
    MentionsThree(em, "timeout", "timed out", "connection");
  }

  /** The class of an error message: the first class, in rank order, one of
      whose fragments occurs in the lower-cased message; `Unknown` when none
      does. */
  function CategorizeError(msg: string): (c: Category)
    ensures c != Unknown ==> Mentions(Lower(msg), Markers(c))
    ensures forall d :: Rank(d) < Rank(c) ==> !Mentions(Lower(msg), Markers(d))
  {
    var em := Lower(msg);
    MarkersSpelledOut(em);
    if Contains(em, "prompt blocked") || Contains(em, "block_reason") then PromptBlock
    else if Contains(em, "429") || Contains(em, "rate limit") || Contains(em, "too many requests")
      || Contains(em, "quota") || Contains(em, "resource has been exhausted") then RateLimit
    else if Contains(em, "403") || Contains(em, "forbidden") || Contains(em, "permission")
      || Contains(em, "401") || Contains(em, "unauthorized") then Auth
    else if Contains(em, "5xx") || Contains(em, "internal") || Contains(em, "unavailable")
      || Contains(em, "deadline") || Contains(em, "server") then Server
    else if Contains(em, "timeout") || Contains(em, "timed out") || Contains(em, "connection") then Network
    else Unknown
  }

  /** Failures that are likely the key's fault and count as strikes. */
  predicate KeySpecific(c: Option<Category>)
  {
    c == Some(RateLimit) || c == Some(Auth) || c == Some(Server) || c == Some(Unknown)
  }

  /** The long cooldown after repeated key-specific failures: ten minutes. */
  const LongCooldown: int := 600

  /** Strikes after which a key enters the long cooldown. */
  const StrikeLimit: nat := 3

  /** The status record of one key (`APIKeyStatus`). */
  datatype KeyStatus = KeyStatus(
    index: nat,
    isAvailable: bool,
    consecutiveFailures: nat,
    totalRequests: nat,
    totalFailures: nat,
    lastUsed: Option<int>,
    cooldownUntil: Option<int>,
    lastError: Option<string>)

  /** A key is marked available exactly when it has no cooldown, and it
      never has more failures than requests. */
  ghost predicate StatusValid(s: KeyStatus)
  {
    (s.isAvailable <==> s.cooldownUntil.None?) && s.totalFailures <= s.totalRequests
  }

  /** The answer `check_availability` gives at time `now`. */
  predicate ReadyAt(s: KeyStatus, now: int)
  {
    s.cooldownUntil.None? || now >= s.cooldownUntil.value
  }

  /** A fresh record: available, no cooldown, all counters zero. */
  function NewStatus(index: nat): (s: KeyStatus)
    ensures StatusValid(s) && s.index == index && s.isAvailable && s.cooldownUntil == None
    ensures s.consecutiveFailures == 0 && s.totalRequests == 0 && s.totalFailures == 0
    ensures s.lastUsed == None && s.lastError == None
  {
    KeyStatus(index, true, 0, 0, 0, None, None, None)
  }

  /** `record_success`: one more request, no strikes, no last error.
      Availability, cooldown and failures are not touched. */
  function RecordSuccess(s: KeyStatus, now: int): (r: KeyStatus)
    requires StatusValid(s)
    ensures StatusValid(r)
    ensures r.totalRequests == s.totalRequests + 1 && r.totalFailures == s.totalFailures
    ensures r.consecutiveFailures == 0 && r.lastUsed == Some(now) && r.lastError == None
    ensures r.index == s.index && r.isAvailable == s.isAvailable && r.cooldownUntil == s.cooldownUntil
  {
    s.(totalRequests := s.totalRequests + 1, consecutiveFailures := 0,
       lastUsed := Some(now), lastError := None)
  }

  /** `record_failure`. Every failure counts as a request and a failure; only
      key-specific ones count as strikes. A rate limit with a positive
      cooldown parks the key for `rateLimitSecs`; a third strike parks it for
      ten minutes, which wins over the short cooldown. */
  function RecordFailure(s: KeyStatus, error: string, category: Option<Category>,
                         rateLimitSecs: int, now: int): (r: KeyStatus)
    requires StatusValid(s)
    ensures StatusValid(r) && r.index == s.index
    ensures r.totalRequests == s.totalRequests + 1 && r.totalFailures == s.totalFailures + 1
    ensures r.lastUsed == Some(now) && r.lastError == Some(error)
    ensures r.consecutiveFailures == s.consecutiveFailures + (if KeySpecific(category) then 1 else 0)
    ensures KeySpecific(category) && r.consecutiveFailures >= StrikeLimit ==>
      r.cooldownUntil == Some(now + LongCooldown) && !r.isAvailable
    ensures !(KeySpecific(category) && r.consecutiveFailures >= StrikeLimit) ==>
      if category == Some(RateLimit) && rateLimitSecs > 0
      then r.cooldownUntil == Some(now + rateLimitSecs) && !r.isAvailable
      else r.cooldownUntil == s.cooldownUntil && r.isAvailable == s.isAvailable
  {
    var counted := s.(totalRequests := s.totalRequests + 1, totalFailures := s.totalFailures + 1,
                      lastUsed := Some(now), lastError := Some(error),
                      consecutiveFailures := s.consecutiveFailures + (if KeySpecific(category) then 1 else 0));
    var short := if category == Some(RateLimit) && rateLimitSecs > 0
                 then counted.(cooldownUntil := Some(now + rateLimitSecs), isAvailable := false)
                 else counted;
    if short.consecutiveFailures >= StrikeLimit && KeySpecific(category)
    then short.(cooldownUntil := Some(now + LongCooldown), isAvailable := false)
    else short
  }

  /** `check_availability`: before the end of a cooldown the key is refused
      and nothing changes; at or after it the cooldown is cleared, the key is
      available again and its strikes are forgotten. The answer is the
      returned record's `isAvailable`. */
  function CheckAvailability(s: KeyStatus, now: int): (r: KeyStatus)
    requires StatusValid(s)
    ensures StatusValid(r) && r.index == s.index
    ensures r.isAvailable == ReadyAt(s, now) && ReadyAt(r, now) == ReadyAt(s, now)
    ensures s.cooldownUntil.Some? && ReadyAt(s, now) ==> r.cooldownUntil == None && r.consecutiveFailures == 0
    ensures !(s.cooldownUntil.Some? && ReadyAt(s, now)) ==> r == s
    ensures r.totalRequests == s.totalRequests && r.totalFailures == s.totalFailures
  {
    if s.cooldownUntil.Some? && now < s.cooldownUntil.value then s
    else if s.cooldownUntil.Some? && now >= s.cooldownUntil.value then
      s.(isAvailable := true, cooldownUntil := None, consecutiveFailures := 0)
    else s
  }

  /** `reset_api_status` on one record: no strikes, available, no cooldown. */
  function ResetStatus(s: KeyStatus): (r: KeyStatus)
    ensures StatusValid(s) ==> StatusValid(r)
    ensures r.consecutiveFailures == 0 && r.isAvailable && r.cooldownUntil == None
    ensures r.index == s.index && r.totalRequests == s.totalRequests && r.totalFailures == s.totalFailures
  {
    s.(consecutiveFailures := 0, isAvailable := true, cooldownUntil := None)
  }

  /** Three strikes in a row without a success park a key for ten minutes,
      whatever the short cooldown, and a check before then refuses it. */
  lemma {:induction false} ThreeStrikes(s: KeyStatus, m1: string, m2: string, m3: string,
                                        c1: Category, c2: Category, c3: Category, secs: int, now: int, later: int)
    requires StatusValid(s) && s.consecutiveFailures == 0
    requires KeySpecific(Some(c1)) && KeySpecific(Some(c2)) && KeySpecific(Some(c3))
    requires now <= later < now + LongCooldown
    ensures var r := RecordFailure(RecordFailure(RecordFailure(s, m1, Some(c1), secs, now),
                                                 m2, Some(c2), secs, now), m3, Some(c3), secs, now);
      r.cooldownUntil == Some(now + LongCooldown) && !CheckAvailability(r, later).isAvailable
  {
    var r1 := RecordFailure(s, m1, Some(c1), secs, now);
    var r2 := RecordFailure(r1, m2, Some(c2), secs, now);
    var r3 := RecordFailure(r2, m3, Some(c3), secs, now);
    assert r3.consecutiveFailures == 3;
  }

  /** What the operation does with a given key. */
  datatype Attempt = Succeeded(value: string) | Failed(message: string) | Cancelled

  /** The record of a key after the operation ran on it: a success or a
      categorised failure is recorded; a cancellation leaves it alone. */
  function Settled(s: KeyStatus, a: Attempt, rateLimitSecs: int, now: int): (r: KeyStatus)
    requires StatusValid(s)
    ensures StatusValid(r) && r.index == s.index
    ensures r.totalRequests == s.totalRequests + (if a.Cancelled? then 0 else 1)
    ensures r.totalFailures == s.totalFailures + (if a.Failed? then 1 else 0)
    ensures a.Succeeded? ==> r.consecutiveFailures == 0 && r.lastError == None
    ensures a.Failed? ==> r.lastError == Some(a.message)
    ensures a.Cancelled? ==> r == s
  {
    match a
    case Succeeded(_) => RecordSuccess(s, now)
    case Failed(msg) => RecordFailure(s, msg, Some(CategorizeError(msg)), rateLimitSecs, now)
    case Cancelled => s
  }

  /** The outcome of `execute_with_failover`: a value, the error raised after
      the tries ran out (with the `(key, message)` pairs it lists), the
      immediate abort when a prompt block has already used every key, or a
      cancellation passed on. */
  datatype FailoverResult =
    | Done(value: string, key: nat)
    | AllFailed(uniqueTries: nat, errors: seq<(nat, string)>)
    | BlockedAbort
    | CancelledAbort

  // ---------------------------------------------------------------------
  // In-use counts (`_in_use_counts`)
  // ---------------------------------------------------------------------

  /** `counts.get(k, 0)`. */
  function Count(counts: map<nat, nat>, k: nat): nat
  {
    if k in counts then counts[k] else 0
  }

  /** Every key present in the map has at least one slot in use. */
  ghost predicate Positive(counts: map<nat, nat>)
  {
    forall k :: k in counts ==> counts[k] >= 1
  }

  /** Taking one slot of key `k`. */
  function Reserve(counts: map<nat, nat>, k: nat): (r: map<nat, nat>)
    ensures Count(r, k) == Count(counts, k) + 1
    ensures forall j :: j != k ==> Count(r, j) == Count(counts, j)
    ensures Positive(counts) ==> Positive(r)
  {
    counts[k := Count(counts, k) + 1]
  }

  /** Giving back one slot of key `k` (`_release_api_index`): the count
      drops by one but never below zero, and a key that reaches zero leaves
      the map. */
  function Unreserve(counts: map<nat, nat>, k: nat): (r: map<nat, nat>)
    ensures Count(r, k) == Max(0, Count(counts, k) - 1)
    ensures forall j :: j != k ==> Count(r, j) == Count(counts, j)
    ensures Positive(counts) ==> Positive(r)
  {
    var cur := Count(counts, k);
    if cur > 1 then counts[k := cur - 1]
    else if cur == 1 then counts - {k}
    else counts
  }

  /** Releasing a slot right after reserving it restores the counts. */
  lemma UnreserveReserve(counts: map<nat, nat>, k: nat)
    requires Positive(counts)
    ensures Unreserve(Reserve(counts, k), k) == counts
  {
    var r := Unreserve(Reserve(counts, k), k);
    assert forall j :: j in r <==> j in counts;
    assert forall j :: j in r ==> r[j] == counts[j];
  }

  // ---------------------------------------------------------------------
  // The pool
  // ---------------------------------------------------------------------

  /** The elements of a sequence as a set. */
  function Elems(s: seq<nat>): set<nat>
  {
    set k | k in s
  }

  ghost predicate Distinct(s: seq<nat>)
  {
    forall i, j :: 0 <= i < j < |s| ==> s[i] != s[j]
  }

  /** Appending a new key keeps a list of keys free of repeats. */
  lemma DistinctSnoc(s: seq<nat>, k: nat)
    requires Distinct(s) && k !in Elems(s)
    ensures Distinct(s + [k]) && Elems(s + [k]) == Elems(s) + {k}
  {
  }

  /** Whether some tried key failed with a prompt block. */
  ghost predicate SawBlock(tried: seq<nat>, outcomes: seq<Attempt>)
  {
    exists j :: 0 <= j < |tried| && BlockedAt(tried[j], outcomes)
  }

  predicate BlockedAt(k: nat, outcomes: seq<Attempt>)
  {
    k < |outcomes| && outcomes[k].Failed? && CategorizeError(outcomes[k].message) == PromptBlock
  }

  lemma SawBlockSnoc(tried: seq<nat>, k: nat, outcomes: seq<Attempt>)
    ensures SawBlock(tried + [k], outcomes) <==> SawBlock(tried, outcomes) || BlockedAt(k, outcomes)
  {
    var t := tried + [k];
    if SawBlock(t, outcomes) && !BlockedAt(k, outcomes) {
      var j :| 0 <= j < |t| && BlockedAt(t[j], outcomes);
      assert j < |tried| && t[j] == tried[j];
    }
    if SawBlock(tried, outcomes) {
      var j :| 0 <= j < |tried| && BlockedAt(tried[j], outcomes);
      assert t[j] == tried[j];
    }
    if BlockedAt(k, outcomes) {
      assert t[|tried|] == k;
    }
  }

  /** Key `i` can be handed out: it exists, is not excluded, is out of
      cooldown (`ready`) and has a free slot under `limit`. */
  predicate Free(ss: seq<KeyStatus>, now: int, counts: map<nat, nat>, limit: nat, exclude: set<nat>, i: int)
  {
    0 <= i < |ss| && i !in exclude && ReadyAt(ss[i], now) && Count(counts, i) < limit
  }

  /** The key a scan of the ring finds: the first of the steps `j`, `j+1`,
      ..., `n-1` after `start` whose key is free, if any. */
  function Scan(ss: seq<KeyStatus>, now: int, counts: map<nat, nat>, limit: nat, exclude: set<nat>,
                start: nat, j: nat): Option<nat>
    requires start < |ss| && j <= |ss|
    decreases |ss| - j
  {
    if j == |ss| then None
    else if Free(ss, now, counts, limit, exclude, Slot(start, j, |ss|)) then Some(Slot(start, j, |ss|))
    else Scan(ss, now, counts, limit, exclude, start, j + 1)
  }

  /** A key the scan finds is free, and every key visited before it in ring
      order is not. */
  lemma {:induction false} ScanFound(ss: seq<KeyStatus>, now: int, counts: map<nat, nat>, limit: nat,
                                     exclude: set<nat>, start: nat, j: nat)
    requires start < |ss| && j <= |ss|
    ensures var r := Scan(ss, now, counts, limit, exclude, start, j);
      r.Some? ==>
        && Free(ss, now, counts, limit, exclude, r.value)
        && exists k :: j <= k < |ss| && r.value == Slot(start, k, |ss|)
             && forall m :: j <= m < k ==> !Free(ss, now, counts, limit, exclude, Slot(start, m, |ss|))
    decreases |ss| - j
  {
    if j < |ss| && !Free(ss, now, counts, limit, exclude, Slot(start, j, |ss|)) {
      ScanFound(ss, now, counts, limit, exclude, start, j + 1);
    }
  }

  /** When the scan from step 0 finds nothing, no key at all is free. */
  lemma ScanNone(ss: seq<KeyStatus>, now: int, counts: map<nat, nat>, limit: nat,
                 exclude: set<nat>, start: nat)
    requires start < |ss|
    requires Scan(ss, now, counts, limit, exclude, start, 0).None?
    ensures forall i :: 0 <= i < |ss| ==> !Free(ss, now, counts, limit, exclude, i)
  {
    forall i | 0 <= i < |ss|
      ensures !Free(ss, now, counts, limit, exclude, i)
    {
      var k := CyclicReach(start, i, |ss|);
      ScanSkips(ss, now, counts, limit, exclude, start, 0, k);
    }
  }

  /** A scan that finds nothing from step `j` passed over step `k >= j`. */
  lemma {:induction false} ScanSkips(ss: seq<KeyStatus>, now: int, counts: map<nat, nat>, limit: nat,
                                     exclude: set<nat>, start: nat, j: nat, k: nat)
    requires start < |ss| && j <= k < |ss|
    requires Scan(ss, now, counts, limit, exclude, start, j).None?
    ensures !Free(ss, now, counts, limit, exclude, Slot(start, k, |ss|))
    decreases k - j
  {
    if j < k {
      ScanSkips(ss, now, counts, limit, exclude, start, j + 1, k);
    }
  }

  /** Every record is valid and sits at its own index. */
  ghost predicate StatusesValid(ss: seq<KeyStatus>)
  {
    forall i :: 0 <= i < |ss| ==> ss[i].index == i && StatusValid(ss[i])
  }

  lemma UpdateStatus(ss: seq<KeyStatus>, i: nat, r: KeyStatus)
    requires StatusesValid(ss) && i < |ss| && r.index == i && StatusValid(r)
    ensures StatusesValid(ss[i := r])
  {
  }

  /** Two record lists that agree on which keys are out of cooldown give
      the same scan. */
  lemma {:induction false} ScanReady(a: seq<KeyStatus>, b: seq<KeyStatus>, now: int, counts: map<nat, nat>,
                                     limit: nat, exclude: set<nat>, start: nat, j: nat)
    requires |a| == |b| && start < |a| && j <= |a|
    requires forall i :: 0 <= i < |a| ==> (ReadyAt(a[i], now) <==> ReadyAt(b[i], now))
    ensures Scan(a, now, counts, limit, exclude, start, j) == Scan(b, now, counts, limit, exclude, start, j)
    decreases |a| - j
  {
    if j < |a| {
      ScanReady(a, b, now, counts, limit, exclude, start, j + 1);
    }
  }

  /** The scan behind `_acquire_api_index_excluding` from step `j` on, with
      its effect on the records: each visited key that is not excluded has
      its cooldown checked (and cleared when over), and the scan stops at
      the first key that is then available with a free slot. The key is the
      one `Scan` names on the records as they were, and the checks change
      neither readiness nor counters. */
  function ScanRun(ss: seq<KeyStatus>, now: int, counts: map<nat, nat>, limit: nat,
                   exclude: set<nat>, start: nat, j: nat): (r: (Option<nat>, seq<KeyStatus>))
    requires StatusesValid(ss) && start < |ss| && j <= |ss|
    ensures r.0 == Scan(ss, now, counts, limit, exclude, start, j)
    ensures |r.1| == |ss| && StatusesValid(r.1)
    ensures forall i :: 0 <= i < |ss| ==>
      && (ReadyAt(r.1[i], now) <==> ReadyAt(ss[i], now))
      && r.1[i].totalRequests == ss[i].totalRequests
      && r.1[i].totalFailures == ss[i].totalFailures
    decreases |ss| - j
  {
    if j == |ss| then (None, ss)
    else
      var i := Slot(start, j, |ss|);
      if i in exclude then ScanRun(ss, now, counts, limit, exclude, start, j + 1)
      else
        var u := CheckAvailability(ss[i], now);
        UpdateStatus(ss, i, u);
        if u.isAvailable && Count(counts, i) < limit then (Some(i), ss[i := u])
        else
          ScanReady(ss, ss[i := u], now, counts, limit, exclude, start, j + 1);
          ScanRun(ss[i := u], now, counts, limit, exclude, start, j + 1)
  }

  /** The scan loop itself, on the records alone. Starting at `cur` it
      visits each key once in ring order; the result is `ScanRun`'s, and
      the index moves past the key found, or comes back to `cur`. */
  method ScanKeys(ss: seq<KeyStatus>, cur: nat, counts: map<nat, nat>, limit: nat,
                  exclude: set<nat>, now: int)
    returns (r: Option<nat>, ss': seq<KeyStatus>, cur': nat)
    requires StatusesValid(ss) && cur < |ss|
    ensures (r, ss') == ScanRun(ss, now, counts, limit, exclude, cur, 0)
    ensures r.Some? ==> r.value < |ss| && r.value !in exclude
    ensures cur' == if r.Some? then (r.value + 1) % |ss| else cur
  {
    var n := |ss|;
    ss' := ss;
    cur' := cur;
    var step := 0;
    while step < n
      invariant 0 <= step <= n && cur' < n
      invariant |ss'| == n && StatusesValid(ss')
      invariant cur' == Slot(cur, step, n)
      invariant ScanRun(ss', now, counts, limit, exclude, cur, step) == ScanRun(ss, now, counts, limit, exclude, cur, 0)
    {
      var idx := cur';
      ghost var before := ss';
      NextMod(idx, n);
      cur' := (cur' + 1) % n;
      if idx !in exclude {
        var updated := CheckAvailability(ss'[idx], now);
        UpdateStatus(ss', idx, updated);
        ss' := ss'[idx := updated];
        if updated.isAvailable && Count(counts, idx) < limit {
          assert ScanRun(before, now, counts, limit, exclude, cur, step) == (Some(idx), ss');
          ScanFound(ss, now, counts, limit, exclude, cur, 0);
          return Some(idx), ss', cur';
        }
        assert ScanRun(before, now, counts, limit, exclude, cur, step)
            == ScanRun(ss', now, counts, limit, exclude, cur, step + 1);
      } else {
        assert ScanRun(before, now, counts, limit, exclude, cur, step)
            == ScanRun(ss', now, counts, limit, exclude, cur, step + 1);
      }
      step := step + 1;
    }
    r := None;
  }

  /** Block mode and the keys used in it, after the operation ran on key `k`
      with outcome `a`: a success ends block mode and forgets the keys, a
      prompt block starts it, and a failure while it is on marks the key as
      used in it. */
  function BlockAfter(block: bool, used: set<nat>, k: nat, a: Attempt): (bool, set<nat>)
  {
    match a
    case Succeeded(_) => (false, {})
    case Cancelled => (block, used)
    case Failed(msg) =>
      var b := block || CategorizeError(msg) == PromptBlock;
      (b, if b then used + {k} else used)
  }

  // ---------------------------------------------------------------------
  // Failover (`execute_with_failover`) as a function of the pool's state
  // ---------------------------------------------------------------------

  /** What stays fixed during one call: the outcome the operation has on
      each key, the number of distinct keys it may use, the keys excluded
      by an earlier prompt block, the in-use counts the scans see, the
      per-key limit, the rate-limit cooldown and the time. */
  datatype Setup = Setup(outcomes: seq<Attempt>, maxUnique: int, excluded: set<nat>,
                         counts: map<nat, nat>, limit: nat, cooldownSecs: int, now: int)

  /** What changes from one try to the next: the records, the round-robin
      index, block mode and the keys used in it, the keys tried so far (in
      order), the `(key, message)` errors collected, and whether a prompt
      block was seen. */
  datatype Run = Run(ss: seq<KeyStatus>, cur: nat, block: bool, used: set<nat>,
                     tried: seq<nat>, errors: seq<(nat, string)>, seen: bool)

  ghost predicate RunOk(s: Setup, r: Run)
  {
    && StatusesValid(r.ss) && |s.outcomes| == |r.ss|
    && (if |r.ss| == 0 then r.cur == 0 else r.cur < |r.ss|)
    && forall g :: g in r.used ==> g < |r.ss|
  }

  /** The outcome of the operation on key `k`, recorded once the scan has
      left the records as `ss`: on the key's record, in block mode, and in
      the tried keys, errors and prompt-block flag of the run; the next
      scan starts after `k`. */
  function Record(s: Setup, r: Run, k: nat, ss: seq<KeyStatus>): (t: Run)
    requires RunOk(s, r) && |ss| == |r.ss| && StatusesValid(ss) && k < |ss|
    ensures RunOk(s, t) && |t.ss| == |r.ss|
    ensures t.tried == r.tried + [k] && t.cur == (k + 1) % |r.ss|
  {
    var a := s.outcomes[k];
    var settled := Settled(ss[k], a, s.cooldownSecs, s.now);
    UpdateStatus(ss, k, settled);
    var after := BlockAfter(r.block, r.used, k, a);
    Run(ss[k := settled], (k + 1) % |r.ss|, after.0, after.1, r.tried + [k],
        if a.Failed? then r.errors + [(k, a.message)] else r.errors,
        r.seen || BlockedAt(k, s.outcomes))
  }

  /** One try: the scan looks for a key outside the tried and excluded
      ones; when it finds one, the operation runs on it and the outcome is
      recorded on the key, in block mode, and in the tried keys, errors and
      prompt-block flag of the run. */
  function Step(s: Setup, r: Run): (t: (Option<nat>, Run))
    requires RunOk(s, r) && |Elems(r.tried) + s.excluded| < |r.ss|
    ensures RunOk(s, t.1) && |t.1.ss| == |r.ss|
    ensures t.0.None? ==> t.1 == r.(ss := t.1.ss)
    ensures t.0.Some? ==>
      var k := t.0.value;
      && k < |r.ss| && k !in r.tried && k !in s.excluded
      && t.1.tried == r.tried + [k] && t.1.cur == (k + 1) % |r.ss|
  {
    var excl := Elems(r.tried) + s.excluded;
    var scan := ScanRun(r.ss, s.now, s.counts, s.limit, excl, r.cur, 0);
    if scan.0.None? then (None, r.(ss := scan.1))
    else
      ScanFound(r.ss, s.now, s.counts, s.limit, excl, r.cur, 0);
      (scan.0, Record(s, r, scan.0.value, scan.1))
  }

  /** What a try records: the error of a failure, a prompt block seen,
      and block mode (ended by a success, kept by a cancellation, switched
      on by a prompt block). */
  lemma StepRecord(s: Setup, r: Run)
    requires RunOk(s, r) && |Elems(r.tried) + s.excluded| < |r.ss|
    ensures var t := Step(s, r); t.0.Some? ==>
      var k := t.0.value;
      && t.1.errors == (if s.outcomes[k].Failed? then r.errors + [(k, s.outcomes[k].message)] else r.errors)
      && (t.1.seen <==> r.seen || BlockedAt(k, s.outcomes))
      && (s.outcomes[k].Succeeded? ==> !t.1.block && t.1.used == {})
      && (s.outcomes[k].Cancelled? ==> t.1.block == r.block && t.1.used == r.used)
      && (s.outcomes[k].Failed? ==> (t.1.block <==> r.block || BlockedAt(k, s.outcomes)))
  {
  }

  /** The tried key's request count goes up unless the call was cancelled,
      its failure count goes up when it failed, and no other key's totals
      move. */
  lemma StepTotals(s: Setup, r: Run)
    requires RunOk(s, r) && |Elems(r.tried) + s.excluded| < |r.ss|
    ensures var t := Step(s, r);
      forall i :: 0 <= i < |r.ss| ==>
        && t.1.ss[i].totalRequests == r.ss[i].totalRequests
             + (if t.0 == Some(i) && !s.outcomes[i].Cancelled? then 1 else 0)
        && t.1.ss[i].totalFailures == r.ss[i].totalFailures
             + (if t.0 == Some(i) && s.outcomes[i].Failed? then 1 else 0)
  {
  }

  /** One turn of `execute_with_failover`'s loop: take the next free key
      outside the tried and excluded ones, run the operation on it and
      record its outcome; this is `Step`. */
  method TryNext(s: Setup, r: Run) returns (k: Option<nat>, t: Run)
    requires RunOk(s, r) && |Elems(r.tried) + s.excluded| < |r.ss|
    ensures (k, t) == Step(s, r)
  {
    var excl := Elems(r.tried) + s.excluded;
    var ss, cur;
    k, ss, cur := ScanKeys(r.ss, r.cur, s.counts, s.limit, excl, s.now);
    if k.None? {
      t := r.(ss := ss);
      return;
    }
    var key := k.value;
    var a := s.outcomes[key];
    var settled := Settled(ss[key], a, s.cooldownSecs, s.now);
    var after := BlockAfter(r.block, r.used, key, a);
    var errors := r.errors;
    var seen := r.seen;
    if a.Failed? {
      errors := errors + [(key, a.message)];
      if CategorizeError(a.message) == PromptBlock {
        seen := true;
      }
    }
    t := Run(ss[key := settled], cur, after.0, after.1, r.tried + [key], errors, seen);
  }

  /** The tries from run state `r` on: they stop at a success, at a
      cancellation, when the distinct-key budget is spent, when no key is
      left to try or free, and after a prompt block once the last allowed
      key has been tried. */
  function Continue(s: Setup, r: Run): (FailoverResult, Run)
    requires RunOk(s, r)
    decreases s.maxUnique - |r.tried|
  {
    if |r.tried| >= s.maxUnique || |Elems(r.tried) + s.excluded| >= |r.ss| then (AllFailed(|r.tried|, r.errors), r)
    else
      var t := Step(s, r);
      if t.0.None? then (AllFailed(|r.tried|, r.errors), t.1)
      else
        match s.outcomes[t.0.value]
        case Succeeded(v) => (Done(v, t.0.value), t.1)
        case Cancelled => (CancelledAbort, t.1)
        case Failed(_) =>
          if t.1.seen && |t.1.tried| >= s.maxUnique then (AllFailed(|t.1.tried|, t.1.errors), t.1)
          else Continue(s, t.1)
  }

  /** A whole call: with block mode on and every key already used in it,
      it aborts at once; otherwise the tries run. */
  function Failover(s: Setup, r: Run): (FailoverResult, Run)
    requires RunOk(s, r)
  {
    if r.block && |s.excluded| >= |r.ss| then (BlockedAbort, r) else Continue(s, r)
  }

  /** The run state a call starts from: nothing tried, and the excluded keys
      are the ones used in block mode if it is on. */
  ghost predicate Starting(s: Setup, r: Run)
  {
    r.tried == [] && r.errors == [] && !r.seen && s.excluded == (if r.block then r.used else {})
  }

  /** The keys tried are distinct, valid, outside the excluded ones, and no
      more than the budget. */
  ghost predicate TriedOk(s: Setup, r: Run)
  {
    && Distinct(r.tried) && |r.tried| <= Max(0, s.maxUnique)
    && forall j :: 0 <= j < |r.tried| ==> r.tried[j] < |r.ss| && r.tried[j] !in s.excluded
  }

  lemma StepTried(s: Setup, r: Run)
    requires RunOk(s, r) && TriedOk(s, r)
    requires |r.tried| < s.maxUnique && |Elems(r.tried) + s.excluded| < |r.ss|
    ensures TriedOk(s, Step(s, r).1)
  {
    var t := Step(s, r);
    if t.0.Some? {
      DistinctSnoc(r.tried, t.0.value);
    }
  }

  /** Trying keeps the tried keys distinct, valid, outside the excluded
      ones and within the budget. */
  lemma {:induction false} ContinueTried(s: Setup, r: Run)
    requires RunOk(s, r) && TriedOk(s, r)
    ensures RunOk(s, Continue(s, r).1) && |Continue(s, r).1.ss| == |r.ss| && TriedOk(s, Continue(s, r).1)
    decreases s.maxUnique - |r.tried|
  {
    if |r.tried| >= s.maxUnique || |Elems(r.tried) + s.excluded| >= |r.ss| {
      assert Continue(s, r).1 == r;
    } else {
      var t := Step(s, r);
      if t.0.None? {
        assert Continue(s, r).1 == t.1;
      } else {
        var k := t.0.value;
        StepTried(s, r);
        if s.outcomes[k].Failed? && !(t.1.seen && |t.1.tried| >= s.maxUnique) {
          assert Continue(s, r) == Continue(s, t.1);
          ContinueTried(s, t.1);
        } else {
          assert Continue(s, r).1 == t.1;
        }
      }
    }
  }

  /** Every key tried so far failed, and the errors list them in order. */
  ghost predicate OutcomesOk(s: Setup, r: Run)
  {
    && |r.errors| == |r.tried|
    && forall j :: 0 <= j < |r.tried| ==>
         r.tried[j] < |s.outcomes| && s.outcomes[r.tried[j]].Failed?
         && r.errors[j] == (r.tried[j], s.outcomes[r.tried[j]].message)
  }

  /** Every key tried before the last one failed. */
  ghost predicate FailedBeforeLast(s: Setup, tried: seq<nat>)
  {
    forall j :: 0 <= j < |tried| - 1 ==> tried[j] < |s.outcomes| && s.outcomes[tried[j]].Failed?
  }

  lemma StepOutcomes(s: Setup, r: Run)
    requires RunOk(s, r) && OutcomesOk(s, r) && |Elems(r.tried) + s.excluded| < |r.ss|
    ensures var t := Step(s, r);
      && (t.0.None? || s.outcomes[t.0.value].Failed? ==> OutcomesOk(s, t.1))
      && FailedBeforeLast(s, t.1.tried)
  {
    var t := Step(s, r);
    StepRecord(s, r);
    if t.0.Some? {
      var k := t.0.value;
      assert forall j :: 0 <= j < |r.tried| ==> t.1.tried[j] == r.tried[j];
      if s.outcomes[k].Failed? {
        assert t.1.errors == r.errors + [(k, s.outcomes[k].message)];
      }
    }
  }

  /** Every key tried before the last one failed; when the tries run out,
      every key tried failed and the errors list them in order. A run never
      ends in the prompt-block abort. */
  ghost predicate EndOk(s: Setup, res: FailoverResult, f: Run)
  {
    && !res.BlockedAbort?
    && FailedBeforeLast(s, f.tried)
    && (res.AllFailed? ==> res == AllFailed(|f.tried|, f.errors) && OutcomesOk(s, f))
  }

  /** The tries end with the keys before the last one failed, and with the
      errors of all of them when they run out. */
  lemma {:induction false} ContinueOutcomes(s: Setup, r: Run)
    requires RunOk(s, r) && OutcomesOk(s, r)
    ensures EndOk(s, Continue(s, r).0, Continue(s, r).1)
    decreases s.maxUnique - |r.tried|
  {
    if |r.tried| >= s.maxUnique || |Elems(r.tried) + s.excluded| >= |r.ss| {
      assert Continue(s, r) == (AllFailed(|r.tried|, r.errors), r);
    } else {
      var t := Step(s, r);
      StepOutcomes(s, r);
      if t.0.None? {
        assert Continue(s, r) == (AllFailed(|r.tried|, r.errors), t.1);
      } else if !s.outcomes[t.0.value].Failed? {
        assert Continue(s, r).1 == t.1 && !Continue(s, r).0.AllFailed?;
      } else if t.1.seen && |t.1.tried| >= s.maxUnique {
        assert Continue(s, r) == (AllFailed(|t.1.tried|, t.1.errors), t.1);
      } else {
        assert Continue(s, r) == Continue(s, t.1);
        ContinueOutcomes(s, t.1);
      }
    }
  }

  /** A success is the value the last key tried gave, and a cancellation
      is the last key's outcome. */
  ghost predicate LastOk(s: Setup, res: FailoverResult, f: Run)
  {
    && (res.Done? ==>
          |f.tried| > 0 && res.key == f.tried[|f.tried| - 1] && res.key < |s.outcomes|
          && s.outcomes[res.key] == Succeeded(res.value))
    && (res.CancelledAbort? ==>
          |f.tried| > 0 && f.tried[|f.tried| - 1] < |s.outcomes| && s.outcomes[f.tried[|f.tried| - 1]].Cancelled?)
  }

  lemma StepLast(s: Setup, r: Run)
    requires RunOk(s, r) && |Elems(r.tried) + s.excluded| < |r.ss|
    ensures var t := Step(s, r); t.0.Some? ==>
      |t.1.tried| > 0 && t.1.tried[|t.1.tried| - 1] == t.0.value && t.0.value < |s.outcomes|
  {
  }

  /** The tries end on the last key tried when they end in a success or a
      cancellation. */
  lemma {:induction false} ContinueLast(s: Setup, r: Run)
    requires RunOk(s, r)
    ensures LastOk(s, Continue(s, r).0, Continue(s, r).1)
    decreases s.maxUnique - |r.tried|
  {
    if |r.tried| >= s.maxUnique || |Elems(r.tried) + s.excluded| >= |r.ss| {
      assert Continue(s, r).0.AllFailed?;
    } else {
      var t := Step(s, r);
      StepLast(s, r);
      if t.0.None? {
        assert Continue(s, r).0.AllFailed?;
      } else if s.outcomes[t.0.value].Succeeded? {
        assert Continue(s, r) == (Done(s.outcomes[t.0.value].value, t.0.value), t.1);
      } else if s.outcomes[t.0.value].Cancelled? {
        assert Continue(s, r) == (CancelledAbort, t.1);
      } else if t.1.seen && |t.1.tried| >= s.maxUnique {
        assert Continue(s, r).0.AllFailed?;
      } else {
        assert Continue(s, r) == Continue(s, t.1);
        ContinueLast(s, t.1);
      }
    }
  }

  /** Whether a prompt block was seen, and block mode, agree with the keys
      tried, given block mode at the start (`b0`). */
  ghost predicate BlockOk(s: Setup, r: Run, b0: bool)
  {
    (r.seen <==> SawBlock(r.tried, s.outcomes)) && (r.block <==> b0 || r.seen)
  }

  lemma StepBlock(s: Setup, r: Run, b0: bool)
    requires RunOk(s, r) && BlockOk(s, r, b0) && |Elems(r.tried) + s.excluded| < |r.ss|
    ensures var t := Step(s, r);
      && (t.0.None? || s.outcomes[t.0.value].Failed? ==> BlockOk(s, t.1, b0))
      && (t.0.Some? && s.outcomes[t.0.value].Cancelled? ==> (t.1.block <==> b0 || SawBlock(t.1.tried, s.outcomes)))
  {
    var t := Step(s, r);
    StepRecord(s, r);
    if t.0.Some? {
      SawBlockSnoc(r.tried, t.0.value, s.outcomes);
    }
  }

  /** Block mode at the end: off after a success, with no keys remembered;
      otherwise on exactly when it was on at the start (`b0`) or one of the
      tried keys hit a prompt block. */
  ghost predicate BlockEndOk(s: Setup, res: FailoverResult, f: Run, b0: bool)
  {
    && (res.Done? ==> !f.block && f.used == {})
    && (res.AllFailed? || res.CancelledAbort? ==> (f.block <==> b0 || SawBlock(f.tried, s.outcomes)))
  }

  /** The tries leave block mode as `BlockEndOk` says. */
  lemma {:induction false} ContinueBlock(s: Setup, r: Run, b0: bool)
    requires RunOk(s, r) && BlockOk(s, r, b0)
    ensures BlockEndOk(s, Continue(s, r).0, Continue(s, r).1, b0)
    decreases s.maxUnique - |r.tried|
  {
    if |r.tried| >= s.maxUnique || |Elems(r.tried) + s.excluded| >= |r.ss| {
      assert Continue(s, r) == (AllFailed(|r.tried|, r.errors), r);
    } else {
      var t := Step(s, r);
      StepBlock(s, r, b0);
      if t.0.None? {
        assert Continue(s, r) == (AllFailed(|r.tried|, r.errors), t.1);
      } else {
        var k := t.0.value;
        match s.outcomes[k]
        case Succeeded(v) =>
          assert Continue(s, r) == (Done(v, k), t.1);
        case Cancelled =>
          assert Continue(s, r) == (CancelledAbort, t.1);
        case Failed(_) =>
          if t.1.seen && |t.1.tried| >= s.maxUnique {
            assert Continue(s, r) == (AllFailed(|t.1.tried|, t.1.errors), t.1);
          } else {
            assert Continue(s, r) == Continue(s, t.1);
            ContinueBlock(s, t.1, b0);
          }
      }
    }
  }

  /** Against the records `ss0` a call started from, each tried key has one
      more request unless the operation was cancelled on it, and one more
      failure if it failed; other keys have what they had. */
  ghost predicate CountersOk(s: Setup, r: Run, ss0: seq<KeyStatus>)
  {
    |ss0| == |r.ss| && |s.outcomes| == |r.ss| &&
    forall i :: 0 <= i < |r.ss| ==>
      && r.ss[i].totalRequests
         == ss0[i].totalRequests + (if i in r.tried && !s.outcomes[i].Cancelled? then 1 else 0)
      && r.ss[i].totalFailures
         == ss0[i].totalFailures + (if i in r.tried && s.outcomes[i].Failed? then 1 else 0)
  }

  lemma StepCounters(s: Setup, r: Run, ss0: seq<KeyStatus>)
    requires RunOk(s, r) && CountersOk(s, r, ss0) && |Elems(r.tried) + s.excluded| < |r.ss|
    ensures CountersOk(s, Step(s, r).1, ss0)
  {
    var t := Step(s, r);
    StepTotals(s, r);
    if t.0.Some? {
      var k := t.0.value;
      assert forall i :: i in t.1.tried <==> i in r.tried || i == k;
    }
  }

  lemma {:induction false} ContinueCounters(s: Setup, r: Run, ss0: seq<KeyStatus>)
    requires RunOk(s, r) && CountersOk(s, r, ss0)
    ensures CountersOk(s, Continue(s, r).1, ss0)
    decreases s.maxUnique - |r.tried|
  {
    if |r.tried| >= s.maxUnique || |Elems(r.tried) + s.excluded| >= |r.ss| {
      assert Continue(s, r).1 == r;
    } else {
      var t := Step(s, r);
      StepCounters(s, r, ss0);
      if t.0.Some? && s.outcomes[t.0.value].Failed? && !(t.1.seen && |t.1.tried| >= s.maxUnique) {
        assert Continue(s, r) == Continue(s, t.1);
        ContinueCounters(s, t.1, ss0);
      } else {
        assert Continue(s, r).1 == t.1;
      }
    }
  }

  /** The loop of `execute_with_failover` on the pool's state: abort at
      once when block mode has used every key, otherwise try keys one at a
      time until a success, a cancellation, or the end of the budget. */
  method RunFailover(s: Setup, r0: Run) returns (res: FailoverResult, run: Run)
    requires RunOk(s, r0) && Starting(s, r0)
    ensures (res, run) == Failover(s, r0)
    ensures RunOk(s, run) && |run.ss| == |r0.ss|
  {
    run := r0;
    if run.block && |s.excluded| >= |run.ss| {
      return BlockedAbort, run;
    }
    assert Failover(s, r0) == Continue(s, r0);
    while |run.tried| < s.maxUnique
      invariant RunOk(s, run)
      invariant Continue(s, run) == Continue(s, r0)
      decreases s.maxUnique - |run.tried|
    {
      if |Elems(run.tried) + s.excluded| >= |run.ss| {
        break;
      }
      ghost var before := run;
      var k;
      k, run := TryNext(s, run);
      if k.None? {
        assert Continue(s, before) == (AllFailed(|run.tried|, run.errors), run);
        return AllFailed(|run.tried|, run.errors), run;
      }
      match s.outcomes[k.value] {
        case Succeeded(v) =>
          assert Continue(s, before) == (Done(v, k.value), run);
          return Done(v, k.value), run;
        case Cancelled =>
          assert Continue(s, before) == (CancelledAbort, run);
          return CancelledAbort, run;
        case Failed(_) =>
      }
      if run.seen && |run.tried| >= s.maxUnique {
        break;
      }
      assert Continue(s, before) == Continue(s, run);
    }
    res := AllFailed(|run.tried|, run.errors);
  }

  /** What a call promises, from its starting state: the tried keys are
      distinct, valid, outside the keys excluded by an earlier prompt block
      and at most `min(maxRetries, #keys)`; the call aborts at once exactly
      when block mode is on and has used every key; a success is the last
      key's value and ends block mode; a cancellation is the last key's
      outcome; when the tries run out, every key tried failed and the errors
      say so in order; block mode otherwise ends up on exactly when it was
      on or a prompt block was hit; and each tried key's counters move by
      its outcome. */
  lemma FailoverSpec(s: Setup, r: Run)
    requires RunOk(s, r) && Starting(s, r)
    ensures var res := Failover(s, r).0; var f := Failover(s, r).1;
      && RunOk(s, f) && TriedOk(s, f) && CountersOk(s, f, r.ss)
      && (res.BlockedAbort? <==> r.block && |r.used| >= |r.ss|)
      && (res.BlockedAbort? ==> f == r)
      && (!res.BlockedAbort? ==> EndOk(s, res, f) && LastOk(s, res, f) && BlockEndOk(s, res, f, r.block))
  {
    if r.block && |s.excluded| >= |r.ss| {
      assert Failover(s, r) == (BlockedAbort, r);
    } else {
      assert Failover(s, r) == Continue(s, r);
      assert TriedOk(s, r) && OutcomesOk(s, r) && BlockOk(s, r, r.block) && CountersOk(s, r, r.ss);
      ContinueTried(s, r);
      ContinueOutcomes(s, r);
      ContinueLast(s, r);
      ContinueBlock(s, r, r.block);
      ContinueCounters(s, r, r.ss);
    }
  }

  // ---------------------------------------------------------------------
  // Distributing tasks (`distribute_tasks`, sequential branch)
  // ---------------------------------------------------------------------

  /** The pool's state between two calls: a run with nothing tried yet. */
  function Fresh(r: Run): Run
  {
    Run(r.ss, r.cur, r.block, r.used, [], [], false)
  }

  /** The records, index and block-mode keys fit a pool of `|r.ss|` keys. */
  ghost predicate PoolOk(r: Run)
  {
    && StatusesValid(r.ss)
    && (if |r.ss| == 0 then r.cur == 0 else r.cur < |r.ss|)
    && forall g :: g in r.used ==> g < |r.ss|
  }

  lemma FailoverPool(s: Setup, r: Run)
    requires RunOk(s, r) && Starting(s, r)
    ensures RunOk(s, Failover(s, r).1) && |Failover(s, r).1.ss| == |r.ss|
  {
    if !(r.block && |s.excluded| >= |r.ss|) {
      assert Failover(s, r) == Continue(s, r);
      ContinueTried(s, r);
    }
  }

  /** The results of running the work items one after another, each through a
      whole failover call on the pool the previous ones left, and the pool
      at the end. `tasks[j][k]` is what task `j` does on key `k`. */
  function Sequential(tasks: seq<seq<Attempt>>, maxUnique: int, counts: map<nat, nat>, limit: nat,
                      cooldownSecs: int, now: int, r: Run): (b: (seq<FailoverResult>, Run))
    requires PoolOk(r) && r == Fresh(r) && forall j :: 0 <= j < |tasks| ==> |tasks[j]| == |r.ss|
    ensures |b.0| == |tasks| && PoolOk(b.1) && b.1 == Fresh(b.1) && |b.1.ss| == |r.ss|
    decreases |tasks|
  {
    if tasks == [] then ([], r)
    else
      var done := Sequential(tasks[..|tasks| - 1], maxUnique, counts, limit, cooldownSecs, now, r);
      var s := TaskSetup(tasks[|tasks| - 1], maxUnique, counts, limit, cooldownSecs, now, done.1);
      FailoverPool(s, done.1);
      var f := Failover(s, done.1);
      (done.0 + [f.0], Fresh(f.1))
  }

  /** The fixed inputs of the failover call of a task with outcomes
      `outcomes` on the pool `r`. */
  function TaskSetup(outcomes: seq<Attempt>, maxUnique: int, counts: map<nat, nat>, limit: nat,
                     cooldownSecs: int, now: int, r: Run): Setup
  {
    Setup(outcomes, maxUnique, if r.block then r.used else {}, counts, limit, cooldownSecs, now)
  }

  /** Once block mode has used every key, every later task aborts at once
      and leaves the pool as it is. */
  lemma {:induction false} SequentialBlocked(tasks: seq<seq<Attempt>>, maxUnique: int, counts: map<nat, nat>,
                                             limit: nat, cooldownSecs: int, now: int, r: Run)
    requires PoolOk(r) && r == Fresh(r) && forall j :: 0 <= j < |tasks| ==> |tasks[j]| == |r.ss|
    requires r.block && |r.used| >= |r.ss|
    ensures var b := Sequential(tasks, maxUnique, counts, limit, cooldownSecs, now, r);
      b.1 == r && forall j :: 0 <= j < |b.0| ==> b.0[j] == BlockedAbort
    decreases |tasks|
  {
    if tasks != [] {
      var front := tasks[..|tasks| - 1];
      SequentialBlocked(front, maxUnique, counts, limit, cooldownSecs, now, r);
      var done := Sequential(front, maxUnique, counts, limit, cooldownSecs, now, r);
      var s := TaskSetup(tasks[|tasks| - 1], maxUnique, counts, limit, cooldownSecs, now, done.1);
      assert Failover(s, done.1) == (BlockedAbort, r);
    }
  }

  /** The loop over the work items of `distribute_tasks`' sequential branch on the pool's
      state: each task runs the failover loop, and its result is appended. */
  method RunTasks(tasks: seq<seq<Attempt>>, maxUnique: int, counts: map<nat, nat>, limit: nat,
                  cooldownSecs: int, now: int, r: Run)
    returns (results: seq<FailoverResult>, pool: Run)
    requires PoolOk(r) && r == Fresh(r) && forall j :: 0 <= j < |tasks| ==> |tasks[j]| == |r.ss|
    ensures (results, pool) == Sequential(tasks, maxUnique, counts, limit, cooldownSecs, now, r)
  {
    results := [];
    pool := r;
    var i := 0;
    while i < |tasks|
      invariant 0 <= i <= |tasks|
      invariant (results, pool) == Sequential(tasks[..i], maxUnique, counts, limit, cooldownSecs, now, r)
    {
      assert tasks[..i + 1][..i] == tasks[..i];
      var res, after := RunFailover(TaskSetup(tasks[i], maxUnique, counts, limit, cooldownSecs, now, pool), pool);
      pool := Fresh(after);
      results := results + [res];
      i := i + 1;
    }
    assert tasks[..i] == tasks;
  }

  /** The number of worker threads of the parallel branch: the requested
      number when it is a positive integer, else one per key, then capped by
      the keys and the work items and raised to at least 1. */
  function SafeWorkers(maxWorkers: Option<int>, keys: nat, tasks: nat): (w: int)
    ensures w >= 1
    ensures keys >= 1 && tasks >= 1 ==> w <= keys && w <= tasks
    ensures maxWorkers.Some? && maxWorkers.value > 0 && keys >= 1 && tasks >= 1 ==> w <= maxWorkers.value
    ensures maxWorkers.Some? && 0 < maxWorkers.value <= keys && maxWorkers.value <= tasks ==> w == maxWorkers.value
    ensures (maxWorkers.None? || maxWorkers.value <= 0) ==> w == Max(1, Min(keys, tasks))
  {
    var desired := if maxWorkers.Some? && maxWorkers.value > 0 then maxWorkers.value else keys;
    Max(1, Min(Min(desired, keys), tasks))
  }

  /** The pool of keys (`MultiAPIManager`). */
  class Manager {
    const keyCount: nat
    const perKeyLimit: nat
    const rateLimitCooldownSecs: nat
    var statuses: seq<KeyStatus>
    var currentIndex: nat
    var inUse: map<nat, nat>
    var blockModeActive: bool
    var globalTried: set<nat>

    ghost predicate Valid()
      reads this
    {
      && perKeyLimit >= 1
      && |statuses| == keyCount
      && StatusesValid(statuses)
      && (if keyCount == 0 then currentIndex == 0 else currentIndex < keyCount)
      && Positive(inUse)
      && (forall k :: k in inUse ==> k < keyCount)
      && (forall k :: k in globalTried ==> k < keyCount)
    }

    /** A pool of `n` fresh keys. The per-key limit and the rate-limit
        cooldown come from the environment: an unreadable value falls back to
        1 and 30, a readable one is clamped to at least 1 and at least 0. */
    constructor (n: nat, limitSetting: Option<int>, cooldownSetting: Option<int>)
      ensures Valid() && keyCount == n
      ensures forall i :: 0 <= i < n ==> statuses[i] == NewStatus(i)
      ensures perKeyLimit == if limitSetting.Some? then Max(1, limitSetting.value) else 1
      ensures rateLimitCooldownSecs == if cooldownSetting.Some? then Max(0, cooldownSetting.value) else 30
      ensures currentIndex == 0 && inUse == map[] && !blockModeActive && globalTried == {}
    {
      keyCount := n;
      statuses := seq(n, i requires 0 <= i < n => NewStatus(i));
      perKeyLimit := if limitSetting.Some? then Max(1, limitSetting.value) else 1;
      rateLimitCooldownSecs := if cooldownSetting.Some? then Max(0, cooldownSetting.value) else 30;
      currentIndex := 0;
      inUse := map[];
      blockModeActive := false;
      globalTried := {};
    }

    /** Round-robin acquisition that skips `exclude` (`_acquire_api_index_excluding`
        without waiting): when everything is excluded nothing happens;
        otherwise the scan runs on the records, and the key it finds, which
        is the one `Scan` names, gets one more slot. */
    method AcquireExcluding(exclude: set<nat>, now: int) returns (r: Option<nat>)
      requires Valid()
      modifies this
      ensures Valid()
      ensures |exclude| >= keyCount ==> r == None && statuses == old(statuses)
      ensures |exclude| < keyCount ==>
        (r, statuses) == ScanRun(old(statuses), now, old(inUse), perKeyLimit, exclude, old(currentIndex), 0)
      ensures r == if |exclude| >= keyCount then None
                   else Scan(old(statuses), now, old(inUse), perKeyLimit, exclude, old(currentIndex), 0)
      ensures r.Some? ==> r.value < keyCount && r.value !in exclude
      ensures r.Some? ==> inUse == Reserve(old(inUse), r.value) && currentIndex == (r.value + 1) % keyCount
      ensures r.None? ==> inUse == old(inUse) && currentIndex == old(currentIndex)
      ensures blockModeActive == old(blockModeActive) && globalTried == old(globalTried)
    {
      if |exclude| >= keyCount {
        return None;
      }
      r, statuses, currentIndex := ScanKeys(statuses, currentIndex, inUse, perKeyLimit, exclude, now);
      if r.Some? {
        inUse := Reserve(inUse, r.value);
      }
    }

    /** `_acquire_api_index`: the same scan with nothing excluded. */
    method Acquire(now: int) returns (r: Option<nat>)
      requires Valid()
      modifies this
      ensures Valid()
      ensures r == if keyCount == 0 then None
                   else Scan(old(statuses), now, old(inUse), perKeyLimit, {}, old(currentIndex), 0)
      ensures r.Some? ==> inUse == Reserve(old(inUse), r.value)
      ensures r.None? ==> inUse == old(inUse)
    {
      r := AcquireExcluding({}, now);
    }

    /** `_release_api_index`. */
    method Release(idx: nat)
      requires Valid()
      modifies this
      ensures Valid()
      ensures inUse == Unreserve(old(inUse), idx)
      ensures statuses == old(statuses) && currentIndex == old(currentIndex)
      ensures blockModeActive == old(blockModeActive) && globalTried == old(globalTried)
    {
      var cur := Count(inUse, idx);
      if cur > 1 {
        inUse := inUse[idx := cur - 1];
      } else if cur == 1 {
        inUse := inUse - {idx};
      }
    }

    /** `reset_api_status`: an index in range gets its strikes and cooldown
        cleared; any other index is ignored. */
    method ResetKey(i: int)
      requires Valid()
      modifies this
      ensures Valid()
      ensures 0 <= i < keyCount ==> statuses == old(statuses)[i := ResetStatus(old(statuses)[i])]
      ensures !(0 <= i < keyCount) ==> statuses == old(statuses)
      ensures inUse == old(inUse) && currentIndex == old(currentIndex)
      ensures blockModeActive == old(blockModeActive) && globalTried == old(globalTried)
    {
      if 0 <= i < keyCount {
        statuses := statuses[i := ResetStatus(statuses[i])];
      }
    }

    /** The fixed inputs of a failover call made now: at most
        `min(maxRetries, #keys)` distinct keys (3 when no bound is given),
        and the keys used in block mode are excluded while it is on. */
    function SetupFor(outcomes: seq<Attempt>, maxRetries: Option<int>, now: int): Setup
      reads this
    {
      Setup(outcomes, MaxUnique(maxRetries), if blockModeActive then globalTried else {},
            inUse, perKeyLimit, rateLimitCooldownSecs, now)
    }

    /** The run state a failover call made now starts from. */
    function StartRun(): Run
      reads this
    {
      Run(statuses, currentIndex, blockModeActive, globalTried, [], [], false)
    }

    /** The distinct-key budget of a call (`min(max_retries, #keys)`, 3 when
        no bound is given). */
    function MaxUnique(maxRetries: Option<int>): int
      reads this
    {
      Min(if maxRetries.Some? then maxRetries.value else 3, keyCount)
    }

    /** Runs the operation on one key after another until one succeeds
        (`execute_with_failover`); `outcomes[k]` is what the operation does
        on key `k`. The result, the keys tried (in order) and the new state
        of the pool are those of `Failover`, whose properties
        `FailoverSpec` states. */
    method ExecuteWithFailover(outcomes: seq<Attempt>, maxRetries: Option<int>, now: int)
      returns (res: FailoverResult, tried: seq<nat>)
      requires Valid() && |outcomes| == keyCount
      modifies this
      ensures Valid()
      ensures inUse == old(inUse)
      ensures var f := Failover(old(SetupFor(outcomes, maxRetries, now)), old(StartRun()));
        && res == f.0 && tried == f.1.tried
        && statuses == f.1.ss && currentIndex == f.1.cur
        && blockModeActive == f.1.block && globalTried == f.1.used
    {
      var run;
      res, run := RunFailover(SetupFor(outcomes, maxRetries, now), StartRun());
      tried := run.tried;
      statuses, currentIndex, blockModeActive, globalTried := run.ss, run.cur, run.block, run.used;
    }

    /** The sequential branch of `distribute_tasks`: before each task the
        cancellation check is asked (it first answers yes before task
        `cancelFrom`), then the work item runs through the failover loop
        (`RunFailover`, as in `ExecuteWithFailover`) and the progress
        callback fires. A `Done` result stands for the
        operation's value, any other for the `{"error": ..., "task": ...}`
        entry. The results and the pool are those of `Sequential` on the
        tasks before the cancellation. */
    method DistributeTasks(tasks: seq<seq<Attempt>>, cancelFrom: nat, maxRetries: Option<int>, now: int)
      returns (results: seq<FailoverResult>, progress: nat)
      requires Valid() && forall j :: 0 <= j < |tasks| ==> |tasks[j]| == keyCount
      modifies this
      ensures Valid() && inUse == old(inUse)
      ensures |results| == Min(cancelFrom, |tasks|) && progress == |results|
      ensures var b := Sequential(tasks[..Min(cancelFrom, |tasks|)], old(MaxUnique(maxRetries)), old(inUse),
                                  perKeyLimit, rateLimitCooldownSecs, now, old(StartRun()));
        && results == b.0
        && statuses == b.1.ss && currentIndex == b.1.cur
        && blockModeActive == b.1.block && globalTried == b.1.used
    {
      var stop := Min(cancelFrom, |tasks|);
      var pool;
      results, pool := RunTasks(tasks[..stop], MaxUnique(maxRetries), inUse, perKeyLimit,
                                rateLimitCooldownSecs, now, StartRun());
      progress := |results|;
      statuses, currentIndex, blockModeActive, globalTried := pool.ss, pool.cur, pool.block, pool.used;
    }
  }
}
