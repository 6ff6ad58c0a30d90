/** Shared vocabulary: optional values, results, the string operations the
    pipeline uses (ASCII lower-casing, substring search, prefix and suffix
    tests, Python-style `str.replace`) and a stable sort by an integer key,
    the way Python's `list.sort(key=...)` behaves. */
module Common {

  datatype Option<T> = None | Some(value: T)

  datatype Result<T> = Ok(value: T) | Err(msg: string)

  function Min(a: int, b: int): int { if a <= b then a else b }

  function Max(a: int, b: int): int { if a >= b then a else b }

  /** `max(0, start_page - 1)`: how far a chunk starting at `start` is
      from the first page of its file. */
  function StartOffset(start: int): (r: int)
    ensures r >= 0 && (start >= 1 ==> r == start - 1) && (start < 1 ==> r == 0)
  {
    Max(0, start - 1)
  }

  // ---------------------------------------------------------------------
  // Strings
  // ---------------------------------------------------------------------

  /** ASCII lower-casing of one character (non-ASCII characters are kept). */
  function LowerChar(c: char): char
  {
    if 'A' <= c <= 'Z' then (c as int + 32) as char else c
  }

  function Lower(s: string): string
  {
    seq(|s|, i requires 0 <= i < |s| => LowerChar(s[i]))
  }

  /** `p` occurs in `s` starting at index `i`. */
  ghost predicate OccursAt(s: string, p: string, i: int)
  {
    0 <= i && i + |p| <= |s| && s[i..i + |p|] == p
  }

  /** Python's `p in s` for strings. */
  predicate Contains(s: string, p: string)
    decreases |s|
  {
    if |p| > |s| then false
    else if p <= s then true
    else Contains(s[1..], p)
  }

  /** A window of `s[1..]` is the window of `s` one place further on. */
  lemma SliceShift(s: string, i: nat, len: nat)
    requires 1 <= i && i + len <= |s|
    ensures s[1..][i - 1..i - 1 + len] == s[i..i + len]
  {
    var a, b := s[1..][i - 1..i - 1 + len], s[i..i + len];
    forall m | 0 <= m < len ensures a[m] == b[m] {
      assert a[m] == s[i + m];
    }
    assert a == b;
  }

  /** An occurrence in `s` is at index 0, or one place further on than an
      occurrence in `s[1..]`; and every occurrence in `s[1..]` is one in `s`. */
  lemma OccursShift(s: string, p: string)
    requires |s| >= 1
    ensures forall i :: OccursAt(s, p, i) ==> (i == 0 && p <= s) || (i >= 1 && OccursAt(s[1..], p, i - 1))
    ensures forall i :: OccursAt(s[1..], p, i) ==> OccursAt(s, p, i + 1)
  {
    forall i | OccursAt(s, p, i)
      ensures (i == 0 && p <= s) || (i >= 1 && OccursAt(s[1..], p, i - 1))
    {
      if i >= 1 {
        SliceShift(s, i, |p|);
      }
    }
    forall i | OccursAt(s[1..], p, i) ensures OccursAt(s, p, i + 1) {
      SliceShift(s, i + 1, |p|);
    }
  }

  /** `Contains` is substring search: it holds iff `p` occurs at some index. */
  lemma {:induction false} ContainsIff(s: string, p: string)
    ensures Contains(s, p) <==> exists i :: OccursAt(s, p, i)
    decreases |s|
  {
    if |p| > |s| {
    } else if p <= s {
      assert s[0..|p|] == p;
      assert OccursAt(s, p, 0);
    } else {
      ContainsIff(s[1..], p);
      OccursShift(s, p);
      if Contains(s[1..], p) {
        var i :| OccursAt(s[1..], p, i);
        assert OccursAt(s, p, i + 1);
      }
    }
  }

  /** A one-character pattern occurs iff that character is an element. */
  lemma ContainsChar(s: string, c: char)
    ensures Contains(s, [c]) <==> c in s
  {
    ContainsIff(s, [c]);
    if c in s {
      var i :| 0 <= i < |s| && s[i] == c;
      assert OccursAt(s, [c], i);
    }
    if Contains(s, [c]) {
      var i :| OccursAt(s, [c], i);
      assert s[i..i + 1] == [c];
      assert s[i] == c;
    }
  }

  /** Python's `s.find(p)`: the index of the first occurrence, or -1. */
  function Find(s: string, p: string): (r: int)
    ensures r >= -1 && (r == -1 <==> !Contains(s, p))
    ensures r >= 0 ==> r + |p| <= |s| && s[r..r + |p|] == p
    decreases |s|
  {
    if |p| > |s| then -1
    else if p <= s then 0
    else
      var r := Find(s[1..], p);
      if r == -1 then -1
      else
        SliceShift(s, r + 1, |p|);
        r + 1
  }

  predicate StartsWith(s: string, p: string) { p <= s }

  predicate EndsWith(s: string, p: string)
  {
    |p| <= |s| && s[|s| - |p|..] == p
  }

  /** Python's `s.replace(pat, rep)`: non-overlapping occurrences, scanned
      left to right, each replaced by `rep`. */
  function Replace(s: string, pat: string, rep: string): string
    requires |pat| > 0
    decreases |s|
  {
    if |s| < |pat| then s
    else if pat <= s then rep + Replace(s[|pat|..], pat, rep)
    else [s[0]] + Replace(s[1..], pat, rep)
  }

  /** No two adjacent characters of `s` are both '.'. */
  ghost predicate NoDotDot(s: string)
  {
    forall i :: 0 <= i < |s| - 1 ==> !(s[i] == '.' && s[i + 1] == '.')
  }

  /** Replacing a single character by a different one removes every
      occurrence of it and leaves every other character where it was. */
  lemma {:induction false} ReplaceCharSpec(s: string, c: char, d: char)
    requires c != d
    ensures |Replace(s, [c], [d])| == |s|
    ensures forall i :: 0 <= i < |s| ==>
      Replace(s, [c], [d])[i] == (if s[i] == c then d else s[i])
    decreases |s|
  {
    if |s| >= 1 {
      ReplaceCharSpec(s[1..], c, d);
      if [c] <= s {
        assert s[0] == c;
      } else {
        assert s[0] != c;
      }
    }
  }

  /** After `Replace(s, "..", "_")` no ".." is left, and the last character
      is kept whenever it is not a dot. */
  lemma {:induction false} ReplaceDotDotSpec(s: string)
    ensures NoDotDot(Replace(s, "..", "_"))
    ensures |Replace(s, "..", "_")| > 0 <==> |s| > 0
    ensures |s| > 0 && s[|s| - 1] != '.' ==>
      var r := Replace(s, "..", "_"); r[|r| - 1] == s[|s| - 1]
    ensures forall x :: x != '.' && x != '_' ==>
      (x in Replace(s, "..", "_") <==> x in s)
    decreases |s|
  {
    var r := Replace(s, "..", "_");
    if |s| < 2 {
    } else if ".." <= s {
      ReplaceDotDotSpec(s[2..]);
      var t := Replace(s[2..], "..", "_");
      assert r == "_" + t;
      forall x | x != '.' && x != '_' ensures x in r <==> x in s {
        assert s == s[..2] + s[2..];
        assert s[..2] == "..";
      }
    } else {
      ReplaceDotDotSpec(s[1..]);
      var t := Replace(s[1..], "..", "_");
      assert r == [s[0]] + t;
      if s[0] == '.' {
        assert s[1] != '.' by { assert s[..2] != ".."; }
        assert !(".." <= s[1..]);
        assert |t| > 0 && t[0] == s[1];
      }
      forall x | x != '.' && x != '_' ensures x in r <==> x in s {
        assert s == [s[0]] + s[1..];
      }
    }
  }

  // ---------------------------------------------------------------------
  // Stable sort by an integer key (Python's list.sort(key=...))
  // ---------------------------------------------------------------------

  ghost predicate SortedBy<T>(s: seq<T>, key: T -> int)
  {
    forall i, j :: 0 <= i < j < |s| ==> key(s[i]) <= key(s[j])
  }

  /** Inserts `x` before the first element whose key is not smaller. */
  function InsertBy<T>(x: T, s: seq<T>, key: T -> int): seq<T>
  {
    if s == [] then [x]
    else if key(x) <= key(s[0]) then [x] + s
    else [s[0]] + InsertBy(x, s[1..], key)
  }

  /** Insertion sort; elements with equal keys keep their input order. */
  function SortBy<T>(s: seq<T>, key: T -> int): seq<T>
  {
    if s == [] then [] else InsertBy(s[0], SortBy(s[1..], key), key)
  }

  /** The elements of `s` whose key is `k`, in order. */
  function WithKey<T>(s: seq<T>, key: T -> int, k: int): seq<T>
  {
    if s == [] then []
    else (if key(s[0]) == k then [s[0]] else []) + WithKey(s[1..], key, k)
  }

  lemma {:induction false} InsertByMultiset<T>(x: T, s: seq<T>, key: T -> int)
    ensures multiset(InsertBy(x, s, key)) == multiset(s) + multiset{x}
  {
    if s != [] && key(x) > key(s[0]) {
      InsertByMultiset(x, s[1..], key);
      assert InsertBy(x, s, key) == [s[0]] + InsertBy(x, s[1..], key);
      assert s == [s[0]] + s[1..];
    }
  }

  /** A lower bound on the keys of `s` and of `x` bounds `InsertBy(x, s)`. */
  lemma {:induction false} InsertByLower<T>(x: T, s: seq<T>, key: T -> int, b: int)
    requires b <= key(x) && forall y :: y in s ==> b <= key(y)
    ensures forall y :: y in InsertBy(x, s, key) ==> b <= key(y)
  {
    if s != [] && key(x) > key(s[0]) {
      InsertByLower(x, s[1..], key, b);
      assert forall y :: y in s[1..] ==> y in s;
    }
  }

  /** Putting an element no larger than any other in front keeps a list sorted. */
  lemma SortedCons<T>(h: T, t: seq<T>, key: T -> int)
    requires SortedBy(t, key) && forall y :: y in t ==> key(h) <= key(y)
    ensures SortedBy([h] + t, key)
  {
    var r := [h] + t;
    forall i, j | 0 <= i < j < |r| ensures key(r[i]) <= key(r[j]) {
      assert r[j] == t[j - 1];
      if i > 0 {
        assert r[i] == t[i - 1];
      } else {
        assert t[j - 1] in t;
      }
    }
  }

  /** The first element of a sorted list is no larger than any element. */
  lemma SortedHead<T>(s: seq<T>, key: T -> int)
    requires SortedBy(s, key) && s != []
    ensures forall y :: y in s ==> key(s[0]) <= key(y)
  {
    forall y | y in s ensures key(s[0]) <= key(y) {
      var m :| 0 <= m < |s| && s[m] == y;
      if m > 0 {
        assert key(s[0]) <= key(s[m]);
      }
    }
  }

  lemma {:induction false} InsertBySorted<T>(x: T, s: seq<T>, key: T -> int)
    requires SortedBy(s, key)
    ensures SortedBy(InsertBy(x, s, key), key)
  {
    if s == [] {
    } else if key(x) <= key(s[0]) {
      SortedHead(s, key);
      SortedCons(x, s, key);
    } else {
      var t := InsertBy(x, s[1..], key);
      assert SortedBy(s[1..], key) by {
        forall i, j | 0 <= i < j < |s[1..]| ensures key(s[1..][i]) <= key(s[1..][j]) {
          assert s[1..][i] == s[i + 1] && s[1..][j] == s[j + 1];
        }
      }
      InsertBySorted(x, s[1..], key);
      SortedHead(s, key);
      assert forall y :: y in s[1..] ==> y in s;
      InsertByLower(x, s[1..], key, key(s[0]));
      SortedCons(s[0], t, key);
    }
  }

  lemma WithKeyCons<T>(h: T, t: seq<T>, key: T -> int, k: int)
    ensures WithKey([h] + t, key, k) == (if key(h) == k then [h] else []) + WithKey(t, key, k)
  {
    assert ([h] + t)[0] == h && ([h] + t)[1..] == t;
  }

  /** The step of `InsertByWithKey` past a smaller first element. */
  lemma InsertByWithKeyStep<T>(x: T, s: seq<T>, key: T -> int, k: int)
    requires s != [] && key(x) > key(s[0])
    requires WithKey(InsertBy(x, s[1..], key), key, k) == (if key(x) == k then [x] else []) + WithKey(s[1..], key, k)
    ensures WithKey(InsertBy(x, s, key), key, k) == (if key(x) == k then [x] else []) + WithKey(s, key, k)
  {
    var t := InsertBy(x, s[1..], key);
    assert InsertBy(x, s, key) == [s[0]] + t;
    WithKeyCons(s[0], t, key, k);
    assert s == [s[0]] + s[1..];
    WithKeyCons(s[0], s[1..], key, k);
    if key(x) == k {
      assert key(s[0]) != k;
    }
  }

  lemma {:induction false} InsertByWithKey<T>(x: T, s: seq<T>, key: T -> int, k: int)
    ensures WithKey(InsertBy(x, s, key), key, k) ==
      (if key(x) == k then [x] else []) + WithKey(s, key, k)
  {
    if s == [] {
      assert InsertBy(x, s, key) == [x] + [];
      WithKeyCons(x, [], key, k);
    } else if key(x) <= key(s[0]) {
      assert InsertBy(x, s, key) == [x] + s;
      WithKeyCons(x, s, key, k);
    } else {
      InsertByWithKey(x, s[1..], key, k);
      InsertByWithKeyStep(x, s, key, k);
    }
  }

  lemma {:induction false} SortByPermutation<T>(s: seq<T>, key: T -> int)
    ensures multiset(SortBy(s, key)) == multiset(s) && |SortBy(s, key)| == |s|
  {
    if s != [] {
      SortByPermutation(s[1..], key);
      assert SortBy(s, key) == InsertBy(s[0], SortBy(s[1..], key), key);
      InsertByMultiset(s[0], SortBy(s[1..], key), key);
      assert s == [s[0]] + s[1..];
      assert multiset(s) == multiset{s[0]} + multiset(s[1..]);
      assert |multiset(SortBy(s, key))| == |multiset(s)|;
    }
  }

  lemma {:induction false} SortBySortedOut<T>(s: seq<T>, key: T -> int)
    ensures SortedBy(SortBy(s, key), key)
  {
    if s != [] {
      SortBySortedOut(s[1..], key);
      assert SortBy(s, key) == InsertBy(s[0], SortBy(s[1..], key), key);
      InsertBySorted(s[0], SortBy(s[1..], key), key);
    }
  }

  lemma {:induction false} SortByStable<T>(s: seq<T>, key: T -> int, k: int)
    ensures WithKey(SortBy(s, key), key, k) == WithKey(s, key, k)
  {
    if s != [] {
      SortByStable(s[1..], key, k);
      SortBySortedOut(s[1..], key);
      assert SortBy(s, key) == InsertBy(s[0], SortBy(s[1..], key), key);
      InsertByWithKey(s[0], SortBy(s[1..], key), key, k);
      assert WithKey(s, key, k) == (if key(s[0]) == k then [s[0]] else []) + WithKey(s[1..], key, k);
    }
  }

  /** SortBy returns a sorted permutation of its input in which the elements
      sharing a key appear in their input order (stability). */
  lemma SortBySpec<T>(s: seq<T>, key: T -> int)
    ensures SortedBy(SortBy(s, key), key)
    ensures multiset(SortBy(s, key)) == multiset(s)
    ensures |SortBy(s, key)| == |s|
    ensures forall k :: WithKey(SortBy(s, key), key, k) == WithKey(s, key, k)
  {
    SortByPermutation(s, key);
    SortBySortedOut(s, key);
    forall k ensures WithKey(SortBy(s, key), key, k) == WithKey(s, key, k) {
      SortByStable(s, key, k);
    }
  }

  /** Sorting a list that is already sorted leaves it as it is. */
  lemma {:induction false} SortBySorted<T>(s: seq<T>, key: T -> int)
    requires SortedBy(s, key)
    ensures SortBy(s, key) == s
  {
    if s != [] {
      SortBySorted(s[1..], key);
    }
  }

  /** The elements of `s` satisfying `p`, in order (a list comprehension). */
  function Keep<T>(s: seq<T>, p: T -> bool): seq<T>
  {
    if s == [] then [] else (if p(s[0]) then [s[0]] else []) + Keep(s[1..], p)
  }

  lemma {:induction false} KeepSpec<T>(s: seq<T>, p: T -> bool)
    ensures |Keep(s, p)| <= |s|
    ensures forall x :: x in Keep(s, p) <==> x in s && p(x)
    ensures multiset(Keep(s, p)) <= multiset(s)
  {
    if s != [] {
      KeepSpec(s[1..], p);
      var head := if p(s[0]) then [s[0]] else [];
      assert Keep(s, p) == head + Keep(s[1..], p);
      assert s == [s[0]] + s[1..];
      assert multiset(Keep(s, p)) == multiset(head) + multiset(Keep(s[1..], p));
      forall x ensures x in Keep(s, p) <==> x in s && p(x) {
        assert x in s <==> x == s[0] || x in s[1..];
      }
    }
  }

  /** Filtering a list with one more element at the end. */
  lemma {:induction false} KeepSnoc<T>(s: seq<T>, x: T, p: T -> bool)
    ensures Keep(s + [x], p) == Keep(s, p) + (if p(x) then [x] else [])
  {
    if s == [] {
      assert [] + [x] == [x];
    } else {
      KeepSnoc(s[1..], x, p);
      assert (s + [x])[1..] == s[1..] + [x];
    }
  }

  /** Filtering a list all of whose elements pass changes nothing. */
  lemma {:induction false} KeepAll<T>(s: seq<T>, p: T -> bool)
    requires forall x :: x in s ==> p(x)
    ensures Keep(s, p) == s
  {
    if s != [] {
      KeepAll(s[1..], p);
    }
  }

  /** `p` holds of everything ordered no later than something it holds of:
      in a list sorted by `key`, the elements passing `p` come first. */
  ghost predicate ClosedBelow<T(!new)>(key: T -> int, p: T -> bool)
  {
    forall x, y :: p(x) && key(y) <= key(x) ==> p(y)
  }

  lemma SortedTail<T>(s: seq<T>, key: T -> int)
    requires SortedBy(s, key) && s != []
    ensures SortedBy(s[1..], key)
  {
    forall i, j | 0 <= i < j < |s[1..]| ensures key(s[1..][i]) <= key(s[1..][j]) {
      assert s[1..][i] == s[i + 1] && s[1..][j] == s[j + 1];
    }
  }

  /** In a sorted list whose first element fails such a `p`, all fail. */
  lemma {:induction false} KeepNoneSorted<T(!new)>(s: seq<T>, key: T -> int, p: T -> bool)
    requires ClosedBelow(key, p) && SortedBy(s, key) && s != [] && !p(s[0])
    ensures Keep(s, p) == []
  {
    if |s| > 1 {
      assert key(s[0]) <= key(s[1]);
      SortedTail(s, key);
      KeepNoneSorted(s[1..], key, p);
    }
  }

  /** Filtering a sorted list by such a `p` and cutting it commute. */
  lemma {:induction false} KeepTake<T(!new)>(s: seq<T>, n: nat, key: T -> int, p: T -> bool)
    requires ClosedBelow(key, p) && SortedBy(s, key)
    ensures Keep(Take(s, n), p) == Take(Keep(s, p), n)
  {
    if s == [] || n == 0 {
      assert Take(s, n) == [];
    } else if p(s[0]) {
      SortedTail(s, key);
      KeepTake(s[1..], n - 1, key, p);
      var t := Take(s, n);
      assert t != [] && t[0] == s[0] && t[1..] == Take(s[1..], n - 1);
      assert Keep(t, p) == [s[0]] + Keep(t[1..], p);
      assert Keep(s, p) == [s[0]] + Keep(s[1..], p);
    } else {
      KeepNoneSorted(s, key, p);
      SortedTake(s, n, key);
      KeepNoneSorted(Take(s, n), key, p);
    }
  }

  lemma SortedTake<T>(s: seq<T>, n: nat, key: T -> int)
    requires SortedBy(s, key) && s != [] && n > 0
    ensures SortedBy(Take(s, n), key) && Take(s, n) != [] && Take(s, n)[0] == s[0]
  {
    var t := Take(s, n);
    forall i, j | 0 <= i < j < |t| ensures key(t[i]) <= key(t[j]) {
      assert t[i] == s[i] && t[j] == s[j];
    }
  }

  /** Filtering by such a `p` and inserting commute. */
  lemma {:induction false} KeepInsertBy<T(!new)>(x: T, t: seq<T>, key: T -> int, p: T -> bool)
    requires ClosedBelow(key, p) && SortedBy(t, key)
    ensures Keep(InsertBy(x, t, key), p) == if p(x) then InsertBy(x, Keep(t, p), key) else Keep(t, p)
  {
    if t == [] {
    } else if key(x) <= key(t[0]) {
      assert InsertBy(x, t, key) == [x] + t;
      assert ([x] + t)[1..] == t;
      if p(x) {
        var k := Keep(t, p);
        if k != [] {
          KeepSpec(t, p);
          assert k[0] in t;
          var j :| 0 <= j < |t| && t[j] == k[0];
          assert key(t[0]) <= key(t[j]);
        }
      }
    } else {
      SortedTail(t, key);
      KeepInsertBy(x, t[1..], key, p);
      var ins := InsertBy(x, t[1..], key);
      assert InsertBy(x, t, key) == [t[0]] + ins;
      assert ([t[0]] + ins)[1..] == ins;
      if p(x) {
        assert p(t[0]);
        assert Keep(t, p) == [t[0]] + Keep(t[1..], p);
      }
    }
  }

  /** Filtering by such a `p` and sorting commute. */
  lemma {:induction false} KeepSortBy<T(!new)>(s: seq<T>, key: T -> int, p: T -> bool)
    requires ClosedBelow(key, p)
    ensures Keep(SortBy(s, key), p) == SortBy(Keep(s, p), key)
  {
    if s != [] {
      KeepSortBy(s[1..], key, p);
      SortBySpec(s[1..], key);
      KeepInsertBy(s[0], SortBy(s[1..], key), key, p);
      var k := Keep(s[1..], p);
      if p(s[0]) {
        assert Keep(s, p) == [s[0]] + k;
        assert ([s[0]] + k)[1..] == k;
        assert SortBy([s[0]] + k, key) == InsertBy(s[0], SortBy(k, key), key);
      } else {
        assert Keep(s, p) == k;
      }
    }
  }

  /** `s[:n]` in Python, for any integer `n` that is not negative. */
  function Take<T>(s: seq<T>, n: nat): seq<T>
  {
    if n <= |s| then s[..n] else s
  }

  /** The index visited `j` steps after `c` in a ring of `n` keys, for
      `c < n` and `j <= n`. */
  function Slot(c: int, j: int, n: int): int
  {
    if c + j < n then c + j else c + j - n
  }

  /** Advancing the index modulo `n` is one step around the ring. */
  lemma NextMod(x: nat, n: nat)
    requires x < n
    ensures (x + 1) % n == if x + 1 < n then x + 1 else 0
  {
  }

  /** Every index of the ring is visited within `n` steps. */
  lemma CyclicReach(c: nat, i: nat, n: nat) returns (j: nat)
    requires c < n && i < n
    ensures j < n && Slot(c, j, n) == i
  {
    j := if i >= c then i - c else i + n - c;
  }

  // ---------------------------------------------------------------------
  // Decimal digits
  // ---------------------------------------------------------------------

  predicate IsDigit(c: char) { '0' <= c <= '9' }

  predicate NoDigit(s: string) { forall k :: 0 <= k < |s| ==> !IsDigit(s[k]) }

  predicate AllDigits(s: string) { forall k :: 0 <= k < |s| ==> IsDigit(s[k]) }

  /** The longest prefix of `s` made of digits. */
  function LeadingDigits(s: string): (ds: string)
    ensures ds <= s && AllDigits(ds)
    ensures |ds| == |s| || !IsDigit(s[|ds|])
  {
    if s == [] || !IsDigit(s[0]) then [] else [s[0]] + LeadingDigits(s[1..])
  }

  /** The digit run of digits followed by a non-digit is those digits. */
  lemma {:induction false} LeadingSplit(ds: string, post: string)
    requires AllDigits(ds) && (post == [] || !IsDigit(post[0]))
    ensures LeadingDigits(ds + post) == ds
  {
    if ds != [] {
      LeadingSplit(ds[1..], post);
      assert (ds + post)[1..] == ds[1..] + post;
    } else {
      assert ds + post == post;
    }
  }

  /** The value of a string of decimal digits (`int(ds)`). */
  function DigitsValue(ds: string): int
  {
    if ds == [] then 0 else DigitsValue(ds[..|ds| - 1]) * 10 + (ds[|ds| - 1] as int - '0' as int)
  }

  /** `str(n)` for a natural number: its decimal digits, most significant
      first, with no leading zero. */
  function NatToString(n: nat): (r: string)
    ensures |r| >= 1 && (n >= 10 <==> |r| >= 2)
    ensures AllDigits(r)
  {
    if n < 10 then [('0' as int + n) as char]
    else NatToString(n / 10) + [('0' as int + n % 10) as char]
  }

  /** Reading back the digits of a number gives the number. */
  lemma {:induction false} DigitsRoundTrip(n: nat)
    ensures DigitsValue(NatToString(n)) == n
  {
    var ds := NatToString(n);
    if n >= 10 {
      DigitsRoundTrip(n / 10);
      assert ds[..|ds| - 1] == NatToString(n / 10);
    }
  }

  /** Different numbers print differently. */
  lemma {:induction false} NatToStringInjective(a: nat, b: nat)
    requires NatToString(a) == NatToString(b)
    ensures a == b
  {
    var s := NatToString(a);
    if a >= 10 {
      assert s[..|s| - 1] == NatToString(a / 10) && s[..|s| - 1] == NatToString(b / 10);
      NatToStringInjective(a / 10, b / 10);
      assert s[|s| - 1] == ('0' as int + a % 10) as char == ('0' as int + b % 10) as char;
    }
  }

  // ---------------------------------------------------------------------
  // Keeping the first element per key (a loop over a list with a `seen` set)
  // ---------------------------------------------------------------------

  /** The keys of the elements of `s`. */
  function KeySet<T, K(==)>(s: seq<T>, key: T -> K): set<K>
  {
    set i | 0 <= i < |s| :: key(s[i])
  }

  /** The elements of `s` that pass `p` and whose key no earlier kept
      element has, in order. */
  function FirstPerKey<T, K(==)>(s: seq<T>, key: T -> K, p: T -> bool): seq<T>
  {
    if s == [] then []
    else
      var d := FirstPerKey(s[..|s| - 1], key, p);
      var x := s[|s| - 1];
      if p(x) && key(x) !in KeySet(d, key) then d + [x] else d
  }

  /** `x` is the first element of `s` passing `p` with its key. */
  ghost predicate FirstOfKey<T, K>(s: seq<T>, key: T -> K, p: T -> bool, x: T)
  {
    exists j :: 0 <= j < |s| && s[j] == x && forall m :: 0 <= m < j && p(s[m]) ==> key(s[m]) != key(x)
  }

  lemma KeySetSnoc<T, K>(d: seq<T>, x: T, key: T -> K)
    ensures KeySet(d + [x], key) == KeySet(d, key) + {key(x)}
  {
    var e := d + [x];
    forall k | k in KeySet(e, key) ensures k in KeySet(d, key) + {key(x)} {
      var i :| 0 <= i < |e| && key(e[i]) == k;
      if i < |d| {
        assert e[i] == d[i];
      }
    }
    forall k | k in KeySet(d, key) ensures k in KeySet(e, key) {
      var i :| 0 <= i < |d| && key(d[i]) == k;
      assert e[i] == d[i];
    }
    assert e[|d|] == x;
  }

  lemma {:induction false} FirstPerKeyFirst<T, K>(s: seq<T>, key: T -> K, p: T -> bool)
    ensures var d := FirstPerKey(s, key, p);
      |d| <= |s| && forall i :: 0 <= i < |d| ==> p(d[i]) && FirstOfKey(s, key, p, d[i])
  {
    if s != [] {
      var n := |s| - 1;
      var f := s[..n];
      FirstPerKeyFirst(f, key, p);
      FirstPerKeyKeys(f, key, p);
      var d0 := FirstPerKey(f, key, p);
      var x := s[n];
      var d := FirstPerKey(s, key, p);
      forall i | 0 <= i < |d|
        ensures p(d[i]) && FirstOfKey(s, key, p, d[i])
      {
        if i < |d0| {
          assert d[i] == d0[i];
          var j :| 0 <= j < |f| && f[j] == d0[i] && forall m :: 0 <= m < j && p(f[m]) ==> key(f[m]) != key(d0[i]);
          assert s[j] == f[j];
          forall m | 0 <= m < j && p(s[m]) ensures key(s[m]) != key(d[i]) {
            assert s[m] == f[m];
          }
        } else {
          assert d[i] == x && p(x) && key(x) !in KeySet(d0, key);
          forall m | 0 <= m < n && p(s[m]) ensures key(s[m]) != key(x) {
            assert s[m] == f[m];
            assert key(f[m]) in (set i | 0 <= i < |f| && p(f[i]) :: key(f[i]));
          }
        }
      }
    }
  }

  /** No two elements of `d` share a key. */
  ghost predicate DistinctKeys<T, K>(d: seq<T>, key: T -> K)
  {
    forall i, j :: 0 <= i < j < |d| ==> key(d[i]) != key(d[j])
  }

  lemma {:induction false} FirstPerKeyDistinct<T, K>(s: seq<T>, key: T -> K, p: T -> bool)
    ensures DistinctKeys(FirstPerKey(s, key, p), key)
  {
    if s != [] {
      var f := s[..|s| - 1];
      FirstPerKeyDistinct(f, key, p);
      var d0 := FirstPerKey(f, key, p);
      var d := FirstPerKey(s, key, p);
      var x := s[|s| - 1];
      assert d == if p(x) && key(x) !in KeySet(d0, key) then d0 + [x] else d0;
      forall i, j | 0 <= i < j < |d|
        ensures key(d[i]) != key(d[j])
      {
        if j == |d0| {
          assert d[j] == x && key(x) !in KeySet(d0, key);
          assert d[i] == d0[i] && key(d0[i]) in KeySet(d0, key);
        } else {
          assert d[i] == d0[i] && d[j] == d0[j];
        }
      }
    }
  }

  lemma {:induction false} FirstPerKeyKeys<T, K>(s: seq<T>, key: T -> K, p: T -> bool)
    ensures KeySet(FirstPerKey(s, key, p), key) == (set i | 0 <= i < |s| && p(s[i]) :: key(s[i]))
  {
    if s != [] {
      var n := |s| - 1;
      var f := s[..n];
      var x := s[n];
      FirstPerKeyKeys(f, key, p);
      KeySetSnoc(FirstPerKey(f, key, p), x, key);
      var all := set i | 0 <= i < |s| && p(s[i]) :: key(s[i]);
      var front := set i | 0 <= i < |f| && p(f[i]) :: key(f[i]);
      forall k | k in all ensures k in front + (if p(x) then {key(x)} else {}) {
        var i :| 0 <= i < |s| && p(s[i]) && key(s[i]) == k;
        if i < n {
          assert s[i] == f[i];
        }
      }
      forall k | k in front ensures k in all {
        var i :| 0 <= i < |f| && p(f[i]) && key(f[i]) == k;
        assert s[i] == f[i];
      }
      assert all == front + (if p(x) then {key(x)} else {});
    }
  }

  /** The elements kept pass `p` and have distinct keys; every key of an
      element passing `p` is kept; and each element kept is the first of
      `s` that passes `p` with its key. */
  lemma FirstPerKeySpec<T, K>(s: seq<T>, key: T -> K, p: T -> bool)
    ensures var d := FirstPerKey(s, key, p);
      && |d| <= |s|
      && (forall i :: 0 <= i < |d| ==> p(d[i]) && FirstOfKey(s, key, p, d[i]))
      && DistinctKeys(d, key)
      && KeySet(d, key) == (set i | 0 <= i < |s| && p(s[i]) :: key(s[i]))
  {
    FirstPerKeyFirst(s, key, p);
    FirstPerKeyDistinct(s, key, p);
    FirstPerKeyKeys(s, key, p);
  }

  /** The loop computing `FirstPerKey`: walks the list once, remembering
      the keys already kept in a set. */
  method KeepFirstPerKey<T, K(==)>(s: seq<T>, key: T -> K, p: T -> bool) returns (unique: seq<T>)
    ensures unique == FirstPerKey(s, key, p)
  {
    var seen: set<K> := {};
    unique := [];
    var j := 0;
    while j < |s|
      invariant 0 <= j <= |s|
      invariant unique == FirstPerKey(s[..j], key, p)
      invariant seen == KeySet(unique, key)
    {
      assert s[..j + 1][..j] == s[..j];
      var x := s[j];
      if p(x) && key(x) !in seen {
        KeySetSnoc(unique, x, key);
        seen := seen + {key(x)};
        unique := unique + [x];
      }
      j := j + 1;
    }
    assert s[..j] == s;
  }

  // ---------------------------------------------------------------------
  // Whitespace
  // ---------------------------------------------------------------------

  predicate IsSpace(c: char)
  {
    c == ' ' || c == '\t' || c == '\n' || c == '\r' || c == 11 as char || c == 12 as char
  }

  /** `s.strip()` for ASCII whitespace. */
  function Strip(s: string): (r: string)
    ensures |r| <= |s|
    ensures r != [] ==> !IsSpace(r[0]) && !IsSpace(r[|r| - 1])
  {
    if s != [] && IsSpace(s[0]) then Strip(s[1..])
    else if s != [] && IsSpace(s[|s| - 1]) then Strip(s[..|s| - 1])
    else s
  }

  // ---------------------------------------------------------------------
  // Grouping by key (a loop filling an insertion-ordered dict of lists)
  // ---------------------------------------------------------------------

  predicate Always<T>(x: T) { true }

  /** The values `vals(x)` of the elements `x` of `s` whose key is `k`,
      concatenated in the order of `s`. */
  function Gather<T, K(==), V>(s: seq<T>, key: T -> K, vals: T -> seq<V>, k: K): seq<V>
  {
    if s == [] then []
    else
      var x := s[|s| - 1];
      Gather(s[..|s| - 1], key, vals, k) + (if key(x) == k then vals(x) else [])
  }

  /** A value is gathered under `k` exactly when some element with key `k`
      contributes it. */
  lemma {:induction false} GatherSpec<T, K, V>(s: seq<T>, key: T -> K, vals: T -> seq<V>, k: K, v: V)
    ensures v in Gather(s, key, vals, k) <==> exists i :: 0 <= i < |s| && key(s[i]) == k && v in vals(s[i])
  {
    if s != [] {
      var n := |s| - 1;
      GatherSpec(s[..n], key, vals, k, v);
      if exists i :: 0 <= i < |s| && key(s[i]) == k && v in vals(s[i]) {
        var i :| 0 <= i < |s| && key(s[i]) == k && v in vals(s[i]);
        if i < n {
          assert s[..n][i] == s[i];
        }
      }
      if exists i :: 0 <= i < n && key(s[..n][i]) == k && v in vals(s[..n][i]) {
        var i :| 0 <= i < n && key(s[..n][i]) == k && v in vals(s[..n][i]);
        assert s[i] == s[..n][i];
      }
    }
  }

  /** The values `f(x)` of the elements `x` of `s`, concatenated in order. */
  function FlatMap<T, U>(s: seq<T>, f: T -> seq<U>): seq<U>
  {
    if s == [] then [] else FlatMap(s[..|s| - 1], f) + f(s[|s| - 1])
  }

  /** A value is in the concatenation exactly when some element gives it. */
  lemma {:induction false} FlatMapSpec<T, U>(s: seq<T>, f: T -> seq<U>, u: U)
    ensures u in FlatMap(s, f) <==> exists i :: 0 <= i < |s| && u in f(s[i])
  {
    if s != [] {
      var n := |s| - 1;
      FlatMapSpec(s[..n], f, u);
      if exists i :: 0 <= i < |s| && u in f(s[i]) {
        var i :| 0 <= i < |s| && u in f(s[i]);
        if i < n {
          assert s[..n][i] == s[i];
        }
      }
      if exists i :: 0 <= i < n && u in f(s[..n][i]) {
        var i :| 0 <= i < n && u in f(s[..n][i]);
        assert s[i] == s[..n][i];
      }
    }
  }

  /** Nothing is gathered under a key no element has. */
  lemma {:induction false} GatherAbsent<T, K, V>(s: seq<T>, key: T -> K, vals: T -> seq<V>, k: K)
    requires k !in KeySet(s, key)
    ensures Gather(s, key, vals, k) == []
  {
    if s != [] {
      var n := |s| - 1;
      assert KeySet(s[..n], key) <= KeySet(s, key) by {
        forall j | j in KeySet(s[..n], key) ensures j in KeySet(s, key) {
          var i :| 0 <= i < n && key(s[..n][i]) == j;
          assert s[i] == s[..n][i];
        }
      }
      GatherAbsent(s[..n], key, vals, k);
      assert key(s[n]) in KeySet(s, key);
    }
  }

  lemma KeySetPrefix<T, K>(s: seq<T>, n: nat, key: T -> K)
    requires n < |s|
    ensures KeySet(s[..n + 1], key) == KeySet(s[..n], key) + {key(s[n])}
  {
    assert s[..n + 1] == s[..n] + [s[n]];
    KeySetSnoc(s[..n], s[n], key);
  }

  /** The loop `for x in s: groups.setdefault(key(x), []).extend(vals(x))`:
      `firsts` holds, in order, the first element of each key (the order of
      the dict's keys), and `groups[k]` what was gathered under `k`. */
  method GroupBy<T, K(==), V>(s: seq<T>, key: T -> K, vals: T -> seq<V>)
    returns (firsts: seq<T>, groups: map<K, seq<V>>)
    ensures firsts == FirstPerKey(s, key, Always)
    ensures groups.Keys == KeySet(s, key)
    ensures forall k :: k in groups ==> groups[k] == Gather(s, key, vals, k)
  {
    firsts := [];
    groups := map[];
    var i := 0;
    while i < |s|
      invariant 0 <= i <= |s|
      invariant firsts == FirstPerKey(s[..i], key, Always)
      invariant groups.Keys == KeySet(s[..i], key) == KeySet(firsts, key)
      invariant forall k :: k in groups ==> groups[k] == Gather(s[..i], key, vals, k)
    {
      var x := s[i];
      assert s[..i + 1][..i] == s[..i] && s[..i + 1][i] == x;
      KeySetPrefix(s, i, key);
      if key(x) !in groups {
        KeySetSnoc(firsts, x, key);
        firsts := firsts + [x];
        groups := groups[key(x) := vals(x)];
        GatherAbsent(s[..i], key, vals, key(x));
      } else {
        groups := groups[key(x) := groups[key(x)] + vals(x)];
      }
      i := i + 1;
    }
    assert s[..i] == s;
  }

  /** The first elements of the groups: one per key, each key of `s` once. */
  lemma GroupFirsts<T, K>(s: seq<T>, key: T -> K)
    ensures DistinctKeys(FirstPerKey(s, key, Always), key)
    ensures KeySet(FirstPerKey(s, key, Always), key) == KeySet(s, key)
    ensures forall i :: 0 <= i < |FirstPerKey(s, key, Always)| ==>
      FirstOfKey(s, key, Always, FirstPerKey(s, key, Always)[i])
  {
    FirstPerKeySpec(s, key, Always);
    assert (set i | 0 <= i < |s| && Always(s[i]) :: key(s[i])) == KeySet(s, key);
  }

  // ---------------------------------------------------------------------
  // Totals
  // ---------------------------------------------------------------------

  /** The sum of `w(x)` over the elements `x` of `s`. */
  function SumOf<T>(s: seq<T>, w: T -> int): int
  {
    if s == [] then 0 else w(s[0]) + SumOf(s[1..], w)
  }

  lemma {:induction false} SumOfAppend<T>(a: seq<T>, b: seq<T>, w: T -> int)
    ensures SumOf(a + b, w) == SumOf(a, w) + SumOf(b, w)
  {
    if a != [] {
      assert (a + b)[1..] == a[1..] + b;
      SumOfAppend(a[1..], b, w);
    } else {
      assert a + b == b;
    }
  }

  /** Sorting does not change a total. */
  lemma {:induction false} SumOfSortBy<T>(s: seq<T>, key: T -> int, w: T -> int)
    ensures SumOf(SortBy(s, key), w) == SumOf(s, w)
  {
    if s != [] {
      SumOfSortBy(s[1..], key, w);
      SumOfInsertBy(s[0], SortBy(s[1..], key), key, w);
    }
  }

  lemma {:induction false} SumOfInsertBy<T>(x: T, t: seq<T>, key: T -> int, w: T -> int)
    ensures SumOf(InsertBy(x, t, key), w) == w(x) + SumOf(t, w)
  {
    if t == [] {
    } else if key(x) <= key(t[0]) {
      assert ([x] + t)[1..] == t;
    } else {
      var ins := InsertBy(x, t[1..], key);
      SumOfInsertBy(x, t[1..], key, w);
      assert ([t[0]] + ins)[1..] == ins;
    }
  }

  /** The totals of what `s` gathers under the keys of the groups `ps`, one
      group after the other. */
  function GatherSum<P, T, K(==), V>(ps: seq<P>, pk: P -> K, s: seq<T>, key: T -> K,
                                    vals: T -> seq<V>, w: V -> int): int
  {
    if ps == [] then 0
    else SumOf(Gather(s, key, vals, pk(ps[0])), w) + GatherSum(ps[1..], pk, s, key, vals, w)
  }

  lemma {:induction false} GatherSumSnoc<P, T, K, V>(ps: seq<P>, pk: P -> K, s: seq<T>, x: T,
                                                     key: T -> K, vals: T -> seq<V>, w: V -> int)
    requires DistinctKeys(ps, pk)
    ensures GatherSum(ps, pk, s + [x], key, vals, w) ==
      GatherSum(ps, pk, s, key, vals, w) + (if key(x) in KeySet(ps, pk) then SumOf(vals(x), w) else 0)
  {
    if ps != [] {
      var t := ps[1..];
      assert DistinctKeys(t, pk) by {
        forall i, j | 0 <= i < j < |t| ensures pk(t[i]) != pk(t[j]) {
          assert t[i] == ps[i + 1] && t[j] == ps[j + 1];
        }
      }
      GatherSumSnoc(t, pk, s, x, key, vals, w);
      assert (s + [x])[..|s|] == s;
      var k := pk(ps[0]);
      var g := Gather(s, key, vals, k);
      assert Gather(s + [x], key, vals, k) == g + (if key(x) == k then vals(x) else []);
      SumOfAppend(g, if key(x) == k then vals(x) else [], w);
      assert KeySet(ps, pk) == {k} + KeySet(t, pk) by {
        assert ps == [ps[0]] + t;
        forall j | j in KeySet(ps, pk) ensures j in {k} + KeySet(t, pk) {
          var i :| 0 <= i < |ps| && pk(ps[i]) == j;
          if i > 0 {
            assert ps[i] == t[i - 1];
          }
        }
        forall j | j in KeySet(t, pk) ensures j in KeySet(ps, pk) {
          var i :| 0 <= i < |t| && pk(t[i]) == j;
          assert ps[i + 1] == t[i];
        }
      }
      assert k !in KeySet(t, pk) by {
        forall i | 0 <= i < |t| ensures pk(t[i]) != k {
          assert t[i] == ps[i + 1];
        }
      }
    }
  }

  /** Groups with distinct keys that cover every key of `s` share out all
      of what `s` gives: no value is lost and none is counted twice. */
  lemma {:induction false} GatherSumAll<P, T, K, V>(ps: seq<P>, pk: P -> K, s: seq<T>,
                                                    key: T -> K, vals: T -> seq<V>, w: V -> int)
    requires DistinctKeys(ps, pk) && KeySet(s, key) <= KeySet(ps, pk)
    ensures GatherSum(ps, pk, s, key, vals, w) == SumOf(FlatMap(s, vals), w)
  {
    if s == [] {
      GatherSumEmpty(ps, pk, s, key, vals, w);
    } else {
      var n := |s| - 1;
      KeySetPrefix(s, n, key);
      assert s[..n + 1] == s;
      GatherSumAll(ps, pk, s[..n], key, vals, w);
      assert s == s[..n] + [s[n]];
      GatherSumSnoc(ps, pk, s[..n], s[n], key, vals, w);
      SumOfAppend(FlatMap(s[..n], vals), vals(s[n]), w);
    }
  }

  /** Groups each holding what `s` gathers under their key total the
      group-by-group sum. */
  lemma {:induction false} SumOfGathered<P, T, K, V>(ps: seq<P>, pk: P -> K, s: seq<T>, key: T -> K,
                                                     vals: T -> seq<V>, w: V -> int, total: P -> int)
    requires forall i :: 0 <= i < |ps| ==> total(ps[i]) == SumOf(Gather(s, key, vals, pk(ps[i])), w)
    ensures SumOf(ps, total) == GatherSum(ps, pk, s, key, vals, w)
  {
    if ps != [] {
      assert forall i :: 0 <= i < |ps[1..]| ==> ps[1..][i] == ps[i + 1];
      SumOfGathered(ps[1..], pk, s, key, vals, w, total);
    }
  }

  function One<T>(x: T): int { 1 }

  lemma {:induction false} SumOfOne<T>(s: seq<T>)
    ensures SumOf(s, One) == |s|
  {
    if s != [] {
      SumOfOne(s[1..]);
    }
  }

  lemma {:induction false} GatherSumEmpty<P, T, K, V>(ps: seq<P>, pk: P -> K, s: seq<T>,
                                                      key: T -> K, vals: T -> seq<V>, w: V -> int)
    requires s == []
    ensures GatherSum(ps, pk, s, key, vals, w) == 0
  {
    if ps != [] {
      GatherSumEmpty(ps[1..], pk, s, key, vals, w);
    }
  }

  // ---------------------------------------------------------------------
  // Paths
  // ---------------------------------------------------------------------

  /** The index of the last `/` in `p`, or -1. */
  function LastSlash(p: string): (r: int)
    ensures -1 <= r < |p| && (r >= 0 ==> p[r] == '/')
    ensures forall i :: r < i < |p| ==> p[i] != '/'
  {
    if p == [] then -1
    else if p[|p| - 1] == '/' then |p| - 1
    else LastSlash(p[..|p| - 1])
  }

  /** `pathlib.PurePosixPath(p).name`: the last component that is neither
      empty nor `.`, or the empty string when there is none. */
  function BaseName(p: string): (r: string)
    ensures forall i :: 0 <= i < |r| ==> r[i] != '/'
    decreases |p|
  {
    var e := LastSlash(p);
    var last := p[e + 1..];
    if last == "" || last == "." then (if e < 0 then "" else BaseName(p[..e]))
    else last
  }
}
