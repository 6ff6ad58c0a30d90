/** The older single-process key rotator: a list of API keys, a state record
    per key, and a round-robin index. A key hit by a rate limit is parked
    until its cooldown time; the next request for a key re-enables every key
    whose cooldown has passed and then takes the first available key at or
    after the index. Time is an integer count of seconds. */
module KeyRotation {
  import opened Common

  /** The part of a key's state that the selection logic reads or writes.
      `lastUsed` is the time of the last selection. */
  datatype KeyState = KeyState(
    available: bool,
    cooldownUntil: Option<int>,
    usageCount: nat,
    lastUsed: Option<int>)

  /** The state every key starts in. */
  function InitialState(): KeyState
  {
    KeyState(true, None, 0, None)
  }

  /** A key whose cooldown has passed becomes available and loses its cooldown. */
  function Refresh(s: KeyState, now: int): (t: KeyState)
    ensures t.usageCount == s.usageCount && t.lastUsed == s.lastUsed
    ensures t.cooldownUntil.Some? ==> t == s && now < t.cooldownUntil.value
    ensures s.cooldownUntil.Some? && now >= s.cooldownUntil.value ==> t.available && t.cooldownUntil.None?
    ensures s.cooldownUntil.None? ==> t == s
  {
    if s.cooldownUntil.Some? && now >= s.cooldownUntil.value then
      s.(available := true, cooldownUntil := None)
    else
      s
  }

  /** Every key's state refreshed at time `now`. */
  function RefreshAll(states: map<string, KeyState>, now: int): map<string, KeyState>
  {
    map k | k in states :: Refresh(states[k], now)
  }

  lemma RefreshTwice(s: KeyState, now: int)
    ensures Refresh(Refresh(s, now), now) == Refresh(s, now)
  {
  }

  /** Refreshing is idempotent, and afterwards no key holds a cooldown that
      has already passed. */
  lemma RefreshAllSpec(states: map<string, KeyState>, now: int)
    ensures RefreshAll(RefreshAll(states, now), now) == RefreshAll(states, now)
    ensures forall k :: k in RefreshAll(states, now) ==>
      RefreshAll(states, now)[k].cooldownUntil.None? || now < RefreshAll(states, now)[k].cooldownUntil.value
  {
    var r := RefreshAll(states, now);
    forall k | k in r
      ensures RefreshAll(r, now)[k] == r[k]
    {
      RefreshTwice(states[k], now);
    }
  }

  /** The key at position `i` of the rotation is available. */
  predicate AvailableAt(keys: seq<string>, states: map<string, KeyState>, i: int)
  {
    0 <= i < |keys| && keys[i] in states && states[keys[i]].available
  }

  /** The first of the slots `step`, `step + 1`, ..., `|keys| - 1` after `cur`
      whose key is available, as a position in `keys`. */
  function FirstAvailable(keys: seq<string>, states: map<string, KeyState>, cur: nat, step: nat): Option<nat>
    decreases |keys| - step
  {
    if step >= |keys| then None
    else if AvailableAt(keys, states, Slot(cur, step, |keys|)) then Some(Slot(cur, step, |keys|))
    else FirstAvailable(keys, states, cur, step + 1)
  }

  /** What the scan finds: `None` exactly when none of the slots from `step`
      on is available; otherwise an available position reached after `d`
      slots, with every slot passed over before it unavailable. */
  lemma {:induction false} FirstAvailableSpec(keys: seq<string>, states: map<string, KeyState>, cur: nat, step: nat)
    ensures FirstAvailable(keys, states, cur, step).None? <==>
      forall t :: step <= t < |keys| ==> !AvailableAt(keys, states, Slot(cur, t, |keys|))
    ensures FirstAvailable(keys, states, cur, step).Some? ==>
      exists d :: step <= d < |keys| && FirstAvailable(keys, states, cur, step).value == Slot(cur, d, |keys|) &&
        AvailableAt(keys, states, Slot(cur, d, |keys|)) &&
        forall t :: step <= t < d ==> !AvailableAt(keys, states, Slot(cur, t, |keys|))
    decreases |keys| - step
  {
    if step < |keys| && !AvailableAt(keys, states, Slot(cur, step, |keys|)) {
      FirstAvailableSpec(keys, states, cur, step + 1);
      var r := FirstAvailable(keys, states, cur, step + 1);
      if r.Some? {
        var d :| step + 1 <= d < |keys| && r.value == Slot(cur, d, |keys|) &&
          AvailableAt(keys, states, Slot(cur, d, |keys|)) &&
          forall t :: step + 1 <= t < d ==> !AvailableAt(keys, states, Slot(cur, t, |keys|));
        assert forall t :: step <= t < d ==> !AvailableAt(keys, states, Slot(cur, t, |keys|));
      }
    } else if step < |keys| {
      assert FirstAvailable(keys, states, cur, step) == Some(Slot(cur, step, |keys|));
      assert forall t :: step <= t < step ==> !AvailableAt(keys, states, Slot(cur, t, |keys|));
    }
  }

  /** Stepping through all `n` slots visits every position: a scan from slot
      0 that finds nothing means that no key at all is available. */
  lemma NoneMeansNoKey(keys: seq<string>, states: map<string, KeyState>, cur: nat)
    requires cur < |keys|
    ensures FirstAvailable(keys, states, cur, 0).None? <==> forall i :: 0 <= i < |keys| ==> !AvailableAt(keys, states, i)
  {
    FirstAvailableSpec(keys, states, cur, 0);
    var n := |keys|;
    if FirstAvailable(keys, states, cur, 0).None? {
      forall i | 0 <= i < n
        ensures !AvailableAt(keys, states, i)
      {
        var t := CyclicReach(cur, i, n);
      }
    }
  }

  /** The state of a key when it is handed out. */
  function Used(s: KeyState, now: int): (t: KeyState)
    ensures t.usageCount == s.usageCount + 1 && t.lastUsed == Some(now)
    ensures t.available == s.available && t.cooldownUntil == s.cooldownUntil
  {
    s.(usageCount := s.usageCount + 1, lastUsed := Some(now))
  }

  /** The pure value of one selection at time `now`: the key handed out,
      the key states and the rotation index afterwards. */
  function Select(keys: seq<string>, states: map<string, KeyState>, cur: nat, now: int)
    : (r: (Option<string>, map<string, KeyState>, nat))
    requires forall k :: k in states <==> k in keys
  {
    var st := RefreshAll(states, now);
    match FirstAvailable(keys, st, cur, 0)
    case None => (None, st, cur)
    case Some(j) =>
      if j < |keys| then (Some(keys[j]), st[keys[j] := Used(st[keys[j]], now)], (j + 1) % |keys|)
      else (None, st, cur)
  }

  /** Position `j` holds the key a selection handed out: it was available,
      only its counters changed, and the index moved just past it. */
  ghost predicate ChosenAt(keys: seq<string>, st: map<string, KeyState>, r: (Option<string>, map<string, KeyState>, nat), now: int, j: int)
  {
    && 0 <= j < |keys| && keys[j] in st && r.0 == Some(keys[j]) && st[keys[j]].available
    && r.2 == (j + 1) % |keys|
    && r.1 == st[keys[j] := Used(st[keys[j]], now)]
  }

  /** What a selection promises: the key returned is the first one in
      round-robin order from the index that was available once the expired
      cooldowns were lifted, its usage count rose by one and the index
      moved just past it; no key is returned only when none was
      available, and then the states are only refreshed and the index is
      back where it started. */
  lemma SelectSpec(keys: seq<string>, states: map<string, KeyState>, cur: nat, now: int)
    requires forall k :: k in states <==> k in keys
    requires |keys| > 0 ==> cur < |keys|
    ensures Select(keys, states, cur, now).0.None? <==>
      forall i :: 0 <= i < |keys| ==> !RefreshAll(states, now)[keys[i]].available
    ensures Select(keys, states, cur, now).0.None? ==>
      Select(keys, states, cur, now).1 == RefreshAll(states, now) && Select(keys, states, cur, now).2 == cur
    ensures Select(keys, states, cur, now).0.Some? ==>
      exists d :: 0 <= d < |keys| && ChosenAt(keys, RefreshAll(states, now), Select(keys, states, cur, now), now, Slot(cur, d, |keys|)) &&
        forall t :: 0 <= t < d ==> !AvailableAt(keys, RefreshAll(states, now), Slot(cur, t, |keys|))
  {
    var st := RefreshAll(states, now);
    FirstAvailableSpec(keys, st, cur, 0);
    if |keys| > 0 {
      NoneMeansNoKey(keys, st, cur);
      var f := FirstAvailable(keys, st, cur, 0);
      if f.Some? {
        var d :| 0 <= d < |keys| && f.value == Slot(cur, d, |keys|) &&
          AvailableAt(keys, st, Slot(cur, d, |keys|)) &&
          forall t :: 0 <= t < d ==> !AvailableAt(keys, st, Slot(cur, t, |keys|));
        assert ChosenAt(keys, st, Select(keys, states, cur, now), now, Slot(cur, d, |keys|));
      } else {
        forall i | 0 <= i < |keys|
          ensures !st[keys[i]].available
        {
          assert !AvailableAt(keys, st, i);
        }
      }
    }
  }

  /** The credential list with its per-key states and rotation index. */
  class KeyManager {
    const keys: seq<string>
    var states: map<string, KeyState>
    var currentIndex: nat

    /** One state per listed key, and the index inside the list. */
    ghost predicate Valid()
      reads this
    {
      && (forall k :: k in states <==> k in keys)
      && (|keys| == 0 ==> currentIndex == 0)
      && (|keys| > 0 ==> currentIndex < |keys|)
    }

    /** Every key starts available, unused and without cooldown. */
    constructor (apiKeys: seq<string>)
      ensures Valid()
      ensures keys == apiKeys && currentIndex == 0
      ensures forall k :: k in apiKeys ==> k in states && states[k] == InitialState()
    {
      keys := apiKeys;
      states := map k | k in apiKeys :: InitialState();
      currentIndex := 0;
    }

    /** Lifts every cooldown that has passed by `now`, one listed key at a
        time (a key listed twice is refreshed twice, which changes nothing). */
    method RefreshCooldowns(now: int)
      modifies this
      requires Valid()
      ensures Valid() && currentIndex == old(currentIndex)
      ensures states == RefreshAll(old(states), now)
    {
      var st := states;
      var i := 0;
      while i < |keys|
        modifies {}
        invariant 0 <= i <= |keys|
        invariant st.Keys == states.Keys
        invariant forall k :: k in st ==> st[k] == (if k in keys[..i] then Refresh(states[k], now) else states[k])
      {
        var k := keys[i];
        RefreshTwice(states[k], now);
        assert keys[..i + 1] == keys[..i] + [k];
        st := st[k := Refresh(st[k], now)];
        i := i + 1;
      }
      assert keys[..i] == keys;
      states := st;
    }

    /** The round-robin selection: after refreshing the cooldowns, try at
        most one slot per listed key starting at the current index; the
        first available key is handed out and the index moves past it. */
    method GetAvailableApi(now: int) returns (key: Option<string>)
      modifies this
      requires Valid()
      ensures Valid()
      ensures (key, states, currentIndex) == Select(keys, old(states), old(currentIndex), now)
    {
      RefreshCooldowns(now);
      ghost var st := states;
      var n := |keys|;
      var cur := currentIndex;
      var attempts := 0;
      while attempts < n
        modifies {}
        invariant 0 <= attempts <= n
        invariant n > 0 ==> cur == Slot(old(currentIndex), attempts, n)
        invariant n == 0 ==> cur == 0
        invariant FirstAvailable(keys, st, old(currentIndex), attempts) == FirstAvailable(keys, st, old(currentIndex), 0)
      {
        if states[keys[cur]].available {
          assert FirstAvailable(keys, st, old(currentIndex), attempts) == Some(cur);
          break;
        }
        NextMod(cur, n);
        cur := (cur + 1) % n;
        attempts := attempts + 1;
      }
      if attempts < n {
        var k := keys[cur];
        states := states[k := Used(states[k], now)];
        currentIndex := (cur + 1) % n;
        key := Some(k);
      } else {
        currentIndex := cur;
        key := None;
      }
    }

    /** Puts a key on cooldown for `cooldownMinutes`; an unknown key is ignored. */
    method MarkRateLimited(apiKey: string, now: int, cooldownMinutes: int)
      modifies this
      requires Valid()
      ensures Valid() && currentIndex == old(currentIndex)
      ensures apiKey !in old(states) ==> states == old(states)
      ensures apiKey in old(states) ==> states == old(states)[apiKey :=
        old(states)[apiKey].(available := false, cooldownUntil := Some(now + cooldownMinutes * 60))]
    {
      if apiKey in states {
        states := states[apiKey := states[apiKey].(available := false, cooldownUntil := Some(now + cooldownMinutes * 60))];
      }
    }

    /** Makes a key available again at once; an unknown key is ignored. */
    method ResetApiKey(apiKey: string)
      modifies this
      requires Valid()
      ensures Valid() && currentIndex == old(currentIndex)
      ensures apiKey !in old(states) ==> states == old(states)
      ensures apiKey in old(states) ==> states == old(states)[apiKey :=
        old(states)[apiKey].(available := true, cooldownUntil := None)]
    {
      if apiKey in states {
        states := states[apiKey := states[apiKey].(available := true, cooldownUntil := None)];
      }
    }
  }

  /** A key put on cooldown is not handed out before the cooldown ends, and
      is available again once it has ended. */
  lemma CooldownHolds(s: KeyState, start: int, minutes: int, now: int)
    requires minutes > 0
    ensures var t := Refresh(s.(available := false, cooldownUntil := Some(start + minutes * 60)), now);
      (now < start + minutes * 60 ==> !t.available) && (now >= start + minutes * 60 ==> t.available)
  {
  }
}
