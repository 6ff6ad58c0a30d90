/** Parsing the service's answer as JSON, and recovering what can be
    recovered from an answer that was cut off (`JSONParser`). Decoding
    itself (`json.loads`) is the parameter `decode`: `None` stands for a
    `JSONDecodeError`. */
module JsonParser {
  import opened Common
  import opened JsonValues

  // ---------------------------------------------------------------------
  // Cleaning
  // ---------------------------------------------------------------------

  /** The Hangul syllable "beon" (U+BC88), the counter word after a
      question number. */
  const Beon: char := '\U{BC88}'

  /** When `s` starts with `"`, digits, `"`, Beon, `"` (the pattern
      `"(\d+)"번"`), the number of digits; otherwise 0. */
  function QuotedNumberAt(s: string): nat
  {
    if |s| >= 1 && s[0] == '"' then
      var k := |LeadingDigits(s[1..])|;
      if k >= 1 && |s| >= k + 4 && s[k + 1] == '"' && s[k + 2] == Beon && s[k + 3] == '"' then k else 0
    else 0
  }

  /** `_clean_json_text`: every `"N"번"` becomes `"N번"`, scanning left to
      right as `re.sub` does; everything else is copied. */
  function CleanJsonText(s: string): string
    decreases |s|
  {
    if s == [] then []
    else
      var k := QuotedNumberAt(s);
      if k >= 1 then ['"'] + s[1..k + 1] + [Beon, '"'] + CleanJsonText(s[k + 4..])
      else [s[0]] + CleanJsonText(s[1..])
  }

  /** No `"N"번"` starts anywhere in `s`. */
  ghost predicate NoQuotedNumber(s: string)
  {
    forall i :: 0 <= i < |s| ==> QuotedNumberAt(s[i..]) == 0
  }

  /** The rewrite: a quoted number followed by `번"` loses the quote
      between the number and the counter word, and the scan goes on after it. */
  lemma CleanRewrites(ds: string, rest: string)
    requires |ds| >= 1 && AllDigits(ds)
    ensures CleanJsonText(['"'] + ds + ['"', Beon, '"'] + rest) == ['"'] + ds + [Beon, '"'] + CleanJsonText(rest)
  {
    var s := ['"'] + ds + ['"', Beon, '"'] + rest;
    assert s[1..] == ds + (['"', Beon, '"'] + rest);
    LeadingSplit(ds, ['"', Beon, '"'] + rest);
    assert QuotedNumberAt(s) == |ds|;
    assert s[1..|ds| + 1] == ds;
    assert s[|ds| + 4..] == rest;
  }

  /** Cleaning never lengthens the text, and shortens it whenever the
      pattern occurs. */
  lemma {:induction false} CleanShortens(s: string)
    ensures |CleanJsonText(s)| <= |s|
    ensures !NoQuotedNumber(s) ==> |CleanJsonText(s)| < |s|
    decreases |s|
  {
    if s != [] {
      var k := QuotedNumberAt(s);
      if k >= 1 {
        CleanShortens(s[k + 4..]);
      } else {
        CleanShortens(s[1..]);
        if !NoQuotedNumber(s) {
          var i :| 0 <= i < |s| && QuotedNumberAt(s[i..]) != 0;
          assert i >= 1;
          assert s[1..][i - 1..] == s[i..];
        }
      }
    }
  }

  /** Text in which the pattern does not occur is left exactly as it is,
      and only such text is. */
  lemma {:induction false} CleanUnchanged(s: string)
    ensures CleanJsonText(s) == s <==> NoQuotedNumber(s)
    decreases |s|
  {
    CleanShortens(s);
    if s != [] && NoQuotedNumber(s) {
      assert QuotedNumberAt(s[0..]) == 0;
      assert s[0..] == s;
      forall i | 0 <= i < |s[1..]| ensures QuotedNumberAt(s[1..][i..]) == 0 {
        assert s[1..][i..] == s[i + 1..];
      }
      CleanUnchanged(s[1..]);
      assert s == [s[0]] + s[1..];
    }
  }

  // ---------------------------------------------------------------------
  // The brace scanner
  // ---------------------------------------------------------------------

  /** The scanner's variables: `brace_count`, `in_string`, `escape_next`. */
  datatype ScanState = ScanState(depth: int, inString: bool, escape: bool)

  const ScanStart := ScanState(0, false, false)

  /** One character of the scan: an escaped character is skipped, a
      backslash escapes the next one, a quote toggles string mode, and
      outside strings braces count up and down. */
  function Step(st: ScanState, c: char): ScanState
  {
    if st.escape then st.(escape := false)
    else if c == '\\' then st.(escape := true)
    else if c == '"' then st.(inString := !st.inString)
    else if st.inString then st
    else if c == '{' then st.(depth := st.depth + 1)
    else if c == '}' then st.(depth := st.depth - 1)
    else st
  }

  /** The character `c`, read in state `st`, is a closing brace that
      brings the count back to zero. */
  predicate Closes(st: ScanState, c: char)
  {
    !st.escape && !st.inString && c == '}' && st.depth == 1
  }

  /** The state after scanning `text[start..k]`. */
  function StateAt(text: string, start: nat, k: nat): ScanState
    requires start <= k <= |text|
    decreases k - start
  {
    if k == start then ScanStart else Step(StateAt(text, start, k - 1), text[k - 1])
  }

  /** The character at `m` closes the object opened at `start`. */
  predicate ClosesAt(text: string, start: nat, m: int)
  {
    start <= m < |text| && Closes(StateAt(text, start, m), text[m])
  }

  /** The position after the first closing brace at an index in `k..hi`,
      or -1. */
  function FirstClose(text: string, start: nat, hi: int, k: nat): (r: int)
    requires start <= k && hi <= |text|
    ensures r == -1 || k < r <= hi
    decreases hi - k
  {
    if k >= hi then -1
    else if ClosesAt(text, start, k) then k + 1
    else FirstClose(text, start, hi, k + 1)
  }

  /** What `_find_object_end` computes: the index just after the brace
      that closes the object opened at `start`, looking no further than
      `searchEnd`, or -1. */
  function ObjectEnd(text: string, start: nat, searchEnd: int): (r: int)
    ensures r == -1 || start < r <= Min(searchEnd, |text|)
  {
    FirstClose(text, start, Min(searchEnd, |text|), start)
  }

  /** `_find_object_end`. */
  method FindObjectEnd(text: string, start: nat, searchEnd: int) returns (r: int)
    ensures r == ObjectEnd(text, start, searchEnd)
  {
    var hi := Min(searchEnd, |text|);
    if start >= hi {
      return -1;
    }
    var braceCount := 0;
    var inString := false;
    var escapeNext := false;
    var i := start;
    while i < hi
      invariant start <= i <= hi
      invariant ScanState(braceCount, inString, escapeNext) == StateAt(text, start, i)
      invariant FirstClose(text, start, hi, start) == FirstClose(text, start, hi, i)
    {
      var c := text[i];
      if escapeNext {
        escapeNext := false;
      } else if c == '\\' {
        escapeNext := true;
      } else if c == '"' {
        inString := !inString;
      } else if !inString {
        if c == '{' {
          braceCount := braceCount + 1;
        } else if c == '}' {
          braceCount := braceCount - 1;
          if braceCount == 0 {
            return i + 1;
          }
        }
      }
      i := i + 1;
    }
    return -1;
  }

  lemma {:induction false} FirstCloseSpec(text: string, start: nat, hi: int, k: nat)
    requires start <= k && hi <= |text|
    ensures var r := FirstClose(text, start, hi, k);
      && (r == -1 <==> forall m :: k <= m < hi ==> !ClosesAt(text, start, m))
      && (r != -1 ==> ClosesAt(text, start, r - 1) && forall m :: k <= m < r - 1 ==> !ClosesAt(text, start, m))
    decreases hi - k
  {
    if k < hi && !ClosesAt(text, start, k) {
      FirstCloseSpec(text, start, hi, k + 1);
    }
  }

  /** The scan ends just after the first closing brace, outside strings
      and not escaped, that brings the count to zero; it gives -1 exactly
      when there is none before `searchEnd`. */
  lemma ObjectEndSpec(text: string, start: nat, searchEnd: int)
    ensures var hi := Min(searchEnd, |text|);
      var r := ObjectEnd(text, start, searchEnd);
      && (r == -1 <==> forall m :: start <= m < hi ==> !ClosesAt(text, start, m))
      && (r != -1 ==> ClosesAt(text, start, r - 1) && forall m :: start <= m < r - 1 ==> !ClosesAt(text, start, m))
  {
    FirstCloseSpec(text, start, Min(searchEnd, |text|), start);
  }

  /** The closing character is an unescaped `}` outside strings, after
      which the count is zero. */
  lemma ClosesAtSpec(text: string, start: nat, m: int)
    requires ClosesAt(text, start, m)
    ensures text[m] == '}' && StateAt(text, start, m + 1).depth == 0 && !StateAt(text, start, m + 1).inString
  {
  }

  /** Starting on an opening brace, the count stays positive until the
      first closing brace that brings it to zero. */
  lemma {:induction false} DepthPositive(text: string, start: nat, k: nat)
    requires start < k <= |text| && text[start] == '{'
    requires forall m :: start <= m < k ==> !ClosesAt(text, start, m)
    ensures StateAt(text, start, k).depth >= 1
    decreases k
  {
    assert StateAt(text, start, k) == Step(StateAt(text, start, k - 1), text[k - 1]);
    if k > start + 1 {
      DepthPositive(text, start, k - 1);
      assert !ClosesAt(text, start, k - 1);
    } else {
      assert StateAt(text, start, k - 1) == ScanStart;
    }
  }

  /** Starting on an opening brace, the scan ends just after the brace
      that balances it: the count is positive everywhere in between and
      zero at the end; and when the scan gives -1, the object is still
      open at the end of the window. */
  lemma ObjectEndBalanced(text: string, start: nat, searchEnd: int)
    requires start < |text| && text[start] == '{'
    ensures var hi := Min(searchEnd, |text|);
      var r := ObjectEnd(text, start, searchEnd);
      && (r != -1 ==> StateAt(text, start, r).depth == 0)
      && (r != -1 ==> forall k :: start < k < r ==> StateAt(text, start, k).depth >= 1)
      && (r == -1 ==> forall k :: start < k <= hi ==> StateAt(text, start, k).depth >= 1)
  {
    var hi := Min(searchEnd, |text|);
    var r := ObjectEnd(text, start, searchEnd);
    ObjectEndSpec(text, start, searchEnd);
    if r != -1 {
      ClosesAtSpec(text, start, r - 1);
      forall k | start < k < r ensures StateAt(text, start, k).depth >= 1 {
        DepthPositive(text, start, k);
      }
    } else {
      forall k | start < k <= hi ensures StateAt(text, start, k).depth >= 1 {
        DepthPositive(text, start, k);
      }
    }
  }

  // ---------------------------------------------------------------------
  // Locating page objects
  // ---------------------------------------------------------------------

  /** `text.rfind(c, 0, hi)`: the last index before `hi` holding `c`, or -1. */
  function RFind(text: string, c: char, hi: nat): (r: int)
    ensures -1 <= r < Min(hi, |text|)
    ensures r >= 0 ==> text[r] == c
    decreases hi
  {
    if hi > |text| then RFind(text, c, |text|)
    else if hi == 0 then -1
    else if text[hi - 1] == c then hi - 1
    else RFind(text, c, hi - 1)
  }

  /** Nothing after the index found, and before `hi`, holds `c`; -1 means
      no index before `hi` does. */
  lemma {:induction false} RFindLast(text: string, c: char, hi: nat)
    ensures var r := RFind(text, c, hi);
      forall j :: r < j < Min(hi, |text|) ==> text[j] != c
    decreases hi
  {
    if hi > |text| {
      RFindLast(text, c, |text|);
    } else if hi > 0 && text[hi - 1] != c {
      RFindLast(text, c, hi - 1);
    }
  }

  /** The first index at or after `i` that is not whitespace (`\s*`). */
  function SkipSpaces(s: string, i: nat): (j: nat)
    requires i <= |s|
    ensures i <= j <= |s| && (j == |s| || !IsSpace(s[j]))
    decreases |s| - i
  {
    if i == |s| || !IsSpace(s[i]) then i else SkipSpaces(s, i + 1)
  }

  /** Everything skipped is whitespace. */
  lemma {:induction false} SkipSpacesSpec(s: string, i: nat)
    requires i <= |s|
    ensures forall m :: i <= m < SkipSpaces(s, i) ==> IsSpace(s[m])
    decreases |s| - i
  {
    if i < |s| && IsSpace(s[i]) {
      SkipSpacesSpec(s, i + 1);
    }
  }

  /** The first index at or after `i` that is not a digit (`\d+` ends there). */
  function SkipDigits(s: string, i: nat): (j: nat)
    requires i <= |s|
    ensures i <= j <= |s| && (j == |s| || !IsDigit(s[j]))
    decreases |s| - i
  {
    if i == |s| || !IsDigit(s[i]) then i else SkipDigits(s, i + 1)
  }

  /** The digits skipped are the leading digits of the rest of the text. */
  lemma {:induction false} SkipDigitsSpec(s: string, i: nat)
    requires i <= |s|
    ensures SkipDigits(s, i) == i + |LeadingDigits(s[i..])|
    decreases |s| - i
  {
    if i < |s| && IsDigit(s[i]) {
      SkipDigitsSpec(s, i + 1);
      assert s[i..] == [s[i]] + s[i + 1..];
    }
  }

  const PageKeyToken := "\"jokbo_page\""

  /** Where a match of `"jokbo_page"\s*:\s*(\d+)` starting at `i` ends, if
      one starts there. */
  function PageRefEnd(text: string, i: nat): (e: Option<nat>)
    requires i <= |text|
    ensures e.Some? ==> i + |PageKeyToken| < e.value <= |text|
  {
    if i + |PageKeyToken| <= |text| && text[i..i + |PageKeyToken|] == PageKeyToken then
      var j := SkipSpaces(text, i + |PageKeyToken|);
      if j < |text| && text[j] == ':' then
        var k := SkipSpaces(text, j + 1);
        var e := SkipDigits(text, k);
        if e > k then Some(e) else None
      else None
    else None
  }

  /** The start of every match of `re.finditer(r'"jokbo_page"\s*:\s*(\d+)')`
      at or after `i`: matches do not overlap, and the search resumes
      where a match ends. */
  function PageStarts(text: string, i: nat): seq<nat>
    requires i <= |text|
    decreases |text| - i
  {
    if i == |text| then []
    else
      match PageRefEnd(text, i)
      case Some(e) => [i] + PageStarts(text, e)
      case None => PageStarts(text, i + 1)
  }

  /** Every element of `r` is a position at or after `i` where a page
      reference begins. */
  ghost predicate BeginsFrom(text: string, r: seq<nat>, i: nat)
  {
    forall k :: 0 <= k < |r| ==> i <= r[k] < |text| && PageRefEnd(text, r[k]).Some?
  }

  /** The starts are positions at or after `i` where a page reference
      begins. */
  lemma {:induction false} PageStartsBegin(text: string, i: nat)
    requires i <= |text|
    ensures BeginsFrom(text, PageStarts(text, i), i)
    decreases |text| - i
  {
    if i < |text| {
      var e := PageRefEnd(text, i);
      if e.Some? {
        PageStartsBegin(text, e.value);
        var rest := PageStarts(text, e.value);
        var r := [i] + rest;
        assert PageStarts(text, i) == r;
        forall k | 0 <= k < |r| ensures i <= r[k] < |text| && PageRefEnd(text, r[k]).Some? {
          if k > 0 {
            assert r[k] == rest[k - 1];
          }
        }
      } else {
        PageStartsBegin(text, i + 1);
        assert PageStarts(text, i) == PageStarts(text, i + 1);
      }
    }
  }

  /** The starts are increasing. */
  lemma {:induction false} PageStartsIncreasing(text: string, i: nat)
    requires i <= |text|
    ensures Increasing(PageStarts(text, i))
    decreases |text| - i
  {
    if i < |text| {
      var e := PageRefEnd(text, i);
      if e.Some? {
        PageStartsIncreasing(text, e.value);
        PageStartsBegin(text, e.value);
        var rest := PageStarts(text, e.value);
        assert PageStarts(text, i) == [i] + rest;
        IncreasingCons(i, rest, e.value);
      } else {
        PageStartsIncreasing(text, i + 1);
        assert PageStarts(text, i) == PageStarts(text, i + 1);
      }
    }
  }

  ghost predicate Increasing(r: seq<nat>)
  {
    forall k, l :: 0 <= k < l < |r| ==> r[k] < r[l]
  }

  lemma IncreasingCons(x: nat, rest: seq<nat>, lo: nat)
    requires x < lo && Increasing(rest) && forall k :: 0 <= k < |rest| ==> lo <= rest[k]
    ensures Increasing([x] + rest)
  {
    var r := [x] + rest;
    forall k, l | 0 <= k < l < |r| ensures r[k] < r[l] {
      assert r[l] == rest[l - 1];
      if k > 0 {
        assert r[k] == rest[k - 1];
      }
    }
  }

  /** No page reference begins in `lo..hi`. */
  ghost predicate NoPageRefIn(text: string, lo: nat, hi: nat)
  {
    forall p :: lo <= p < hi && p < |text| ==> PageRefEnd(text, p).None?
  }

  /** A page reference-free window is still one after its first position. */
  lemma NoPageRefExtend(text: string, lo: nat, hi: nat)
    requires lo < |text| && PageRefEnd(text, lo).None? && NoPageRefIn(text, lo + 1, hi)
    ensures NoPageRefIn(text, lo, hi)
  {
    forall p | lo <= p < hi && p < |text| ensures PageRefEnd(text, p).None? {
      if p > lo {
        assert lo + 1 <= p;
      }
    }
  }

  /** There are no starts exactly when no page reference begins at or
      after `i`. */
  lemma PageStartsNone(text: string, i: nat)
    requires i <= |text|
    ensures PageStarts(text, i) == [] <==> NoPageRefIn(text, i, |text|)
  {
    PageStartsEmpty(text, i);
    PageStartsBegin(text, i);
    var r := PageStarts(text, i);
    if r != [] {
      assert i <= r[0] < |text| && PageRefEnd(text, r[0]).Some?;
    }
  }

  lemma {:induction false} PageStartsEmpty(text: string, i: nat)
    requires i <= |text|
    ensures PageStarts(text, i) == [] ==> NoPageRefIn(text, i, |text|)
    decreases |text| - i
  {
    if i < |text| && PageRefEnd(text, i).None? {
      PageStartsEmpty(text, i + 1);
      assert PageStarts(text, i) == PageStarts(text, i + 1);
      if PageStarts(text, i) == [] {
        NoPageRefExtend(text, i, |text|);
      }
    }
  }

  /** No page reference begins before the first start. */
  lemma {:induction false} PageStartsFirst(text: string, i: nat)
    requires i <= |text| && PageStarts(text, i) != []
    ensures NoPageRefIn(text, i, PageStarts(text, i)[0])
    decreases |text| - i
  {
    var e := PageRefEnd(text, i);
    if e.None? {
      assert PageStarts(text, i) == PageStarts(text, i + 1);
      PageStartsFirst(text, i + 1);
      NoPageRefExtend(text, i, PageStarts(text, i)[0]);
    } else {
      assert PageStarts(text, i)[0] == i;
    }
  }

  // ---------------------------------------------------------------------
  // Validating questions and pages
  // ---------------------------------------------------------------------

  /** `in` raises on these. */
  predicate Scalar(j: Json) { j.Null? || j.Bool? || j.Num? }

  /** `all(key in q for key in ["question_number", "question_text",
      "answer"])`, evaluated left to right. */
  function Complete(q: Json): Result<bool>
  {
    var a := In("question_number", q);
    if a.Err? then Err(a.msg)
    else if !a.value then Ok(false)
    else
      var b := In("question_text", q);
      if b.Err? then Err(b.msg)
      else if !b.value then Ok(false)
      else In("answer", q)
  }

  predicate IsComplete(q: Json) { Complete(q) == Ok(true) }

  /** The complete questions of `items` in order; the first item `in`
      refuses stops the loop. */
  function KeepComplete(items: seq<Json>): Result<seq<Json>>
  {
    if items == [] then Ok([])
    else
      var front := KeepComplete(items[..|items| - 1]);
      var q := items[|items| - 1];
      if front.Err? then front
      else
        var c := Complete(q);
        if c.Err? then Err(c.msg)
        else if c.value then Ok(front.value + [q]) else front
  }

  /** A failed prefix fails the whole list with the same error. */
  lemma {:induction false} KeepCompleteErr(items: seq<Json>, n: nat)
    requires n <= |items| && KeepComplete(items[..n]).Err?
    ensures KeepComplete(items) == KeepComplete(items[..n])
    decreases |items| - n
  {
    if n < |items| {
      assert items[..n + 1][..n] == items[..n];
      KeepCompleteErr(items, n + 1);
    } else {
      assert items[..n] == items;
    }
  }

  /** The loop fails exactly when some question is a number, a boolean or
      `None`; otherwise it keeps, in order, exactly the questions having
      all three keys. */
  lemma {:induction false} KeepCompleteSpec(items: seq<Json>)
    ensures KeepComplete(items).Err? <==> exists i :: 0 <= i < |items| && Scalar(items[i])
    ensures KeepComplete(items).Ok? ==> KeepComplete(items).value == Keep(items, IsComplete)
  {
    if items != [] {
      var n := |items| - 1;
      KeepCompleteSpec(items[..n]);
      assert items == items[..n] + [items[n]];
      KeepSnoc(items[..n], items[n], IsComplete);
      InSpec("question_number", items[n]);
      forall i | 0 <= i < n ensures items[..n][i] == items[i] { }
    }
  }

  /** The questions of `questions` (`for q in questions`) that are complete. */
  function QuestionsOf(questions: Json): Result<seq<Json>>
  {
    var it := Iter(questions);
    if it.Err? then Err(it.msg) else KeepComplete(it.value)
  }

  /** `_validate_questions`. */
  method ValidateQuestions(questions: Json) returns (r: Result<seq<Json>>)
    ensures r == QuestionsOf(questions)
  {
    var it := Iter(questions);
    if it.Err? {
      return Err(it.msg);
    }
    var items := it.value;
    var valid: seq<Json> := [];
    var i := 0;
    while i < |items|
      invariant 0 <= i <= |items|
      invariant KeepComplete(items[..i]) == Ok(valid)
    {
      var q := items[i];
      assert items[..i + 1][..i] == items[..i];
      var c := Complete(q);
      if c.Err? {
        KeepCompleteErr(items, i + 1);
        return Err(c.msg);
      }
      if c.value {
        valid := valid + [q];
      }
      i := i + 1;
    }
    assert items[..i] == items;
    return Ok(valid);
  }

  /** The page check shared by both parsers: a page object needs the keys
      `jokbo_page` and `questions` and at least one complete question; it
      comes back holding only its complete questions. */
  function ValidatedPage(page: Json): Result<Option<Json>>
  {
    var a := In("jokbo_page", page);
    if a.Err? then Err(a.msg)
    else if !a.value then Ok(None)
    else
      var b := In("questions", page);
      if b.Err? then Err(b.msg)
      else if !b.value then Ok(None)
      else
        var qs := GetOr(page, "questions", Arr([]));
        if qs.Err? then Err(qs.msg)
        else
          var v := QuestionsOf(qs.value);
          if v.Err? then Err(v.msg)
          else if v.value == [] then Ok(None)
          else Ok(Some(Obj(Assign(page.fields, "questions", Arr(v.value)))))
  }

  /** A recovered page: a dict with `jokbo_page` whose `questions` is a
      non-empty list of complete questions. */
  ghost predicate RecoveredPage(p: Json)
  {
    && p.Obj?
    && HasKey(p.fields, "jokbo_page")
    && Lookup(p.fields, "questions") == Some(Arr(QuestionItems(p)))
    && QuestionItems(p) != []
    && forall q :: q in QuestionItems(p) ==> IsComplete(q)
  }

  /** The list under `questions`, when there is one. */
  function QuestionItems(p: Json): seq<Json>
  {
    if p.Obj? && Lookup(p.fields, "questions").Some? && Lookup(p.fields, "questions").value.Arr?
    then Lookup(p.fields, "questions").value.items
    else []
  }

  /** A page that passes is a recovered page, with its complete
      questions in their order and every other key as it was. */
  lemma ValidatedPageShape(page: Json)
    requires ValidatedPage(page).Ok? && ValidatedPage(page).value.Some?
    ensures var p := ValidatedPage(page).value.value;
      && RecoveredPage(p)
      && page.Obj?
      && Lookup(p.fields, "questions") == Some(Arr(Keep(Iter(Lookup(page.fields, "questions").value).value, IsComplete)))
      && forall k :: k != "questions" ==> Lookup(p.fields, k) == Lookup(page.fields, k)
  {
    var qs := Lookup(page.fields, "questions").value;
    var items := Iter(qs).value;
    KeepCompleteSpec(items);
    KeepSpec(items, IsComplete);
    var p := ValidatedPage(page).value.value;
    assert Lookup(p.fields, "jokbo_page") == Lookup(page.fields, "jokbo_page");
  }

  /** A dict with both keys and a list of questions, none of them a
      number, boolean or `None`, passes exactly when one of its questions
      is complete. */
  lemma ValidatedPageAccepts(page: Json)
    requires page.Obj? && HasKey(page.fields, "jokbo_page") && HasKey(page.fields, "questions")
    requires Lookup(page.fields, "questions").value.Arr?
    requires forall q :: q in Lookup(page.fields, "questions").value.items ==> !Scalar(q)
    ensures ValidatedPage(page).Ok?
    ensures ValidatedPage(page).value.Some? <==>
      exists q :: q in Lookup(page.fields, "questions").value.items && IsComplete(q)
  {
    var items := Lookup(page.fields, "questions").value.items;
    KeepCompleteSpec(items);
    KeepSpec(items, IsComplete);
    InSpec("jokbo_page", page);
    InSpec("questions", page);
    var kept := Keep(items, IsComplete);
    assert GetOr(page, "questions", Arr([])) == Ok(Arr(items));
    assert QuestionsOf(Arr(items)) == Ok(kept);
    assert ValidatedPage(page) == if kept == [] then Ok(None)
      else Ok(Some(Obj(Assign(page.fields, "questions", Arr(kept)))));
    if exists q :: q in items && IsComplete(q) {
      var q :| q in items && IsComplete(q);
      assert q in kept;
    } else if kept != [] {
      assert kept[0] in kept;
    }
  }

  /** `_extract_page_object` for the `index`-th page reference: the
      object around it, bounded by the opening brace before the next
      reference, decoded and validated. */
  function ExtractPageObject(text: string, decode: string -> Option<Json>, starts: seq<nat>, index: nat): Result<Option<Json>>
    requires index < |starts|
  {
    var objStart := RFind(text, '{', starts[index]);
    if objStart == -1 then Ok(None)
    else
      var searchEnd := if index < |starts| - 1 then RFind(text, '{', starts[index + 1]) else |text|;
      var objEnd := ObjectEnd(text, objStart, searchEnd);
      if objEnd > objStart then
        match decode(text[objStart..objEnd])
        case None => Ok(None)
        case Some(page) => ValidatedPage(page)
      else Ok(None)
  }

  // ---------------------------------------------------------------------
  // Partial recovery, exam-centred answers
  // ---------------------------------------------------------------------

  /** What each page reference yields, in order. */
  function PageResults(text: string, decode: string -> Option<Json>, starts: seq<nat>): (r: seq<Result<Option<Json>>>)
    ensures |r| == |starts|
  {
    seq(|starts|, i requires 0 <= i < |starts| => ExtractPageObject(text, decode, starts, i))
  }

  /** The pages kept from the extraction results, in order: each page
      that came back and is not empty; the first error stops the loop. */
  function KeepPages(results: seq<Result<Option<Json>>>): Result<seq<Json>>
  {
    if results == [] then Ok([])
    else
      var front := KeepPages(results[..|results| - 1]);
      var p := results[|results| - 1];
      if front.Err? then front
      else if p.Err? then Err(p.msg)
      else if p.value.Some? && Truthy(p.value.value) then Ok(front.value + [p.value.value])
      else front
  }

  /** A failed prefix fails the whole loop with the same error. */
  lemma {:induction false} KeepPagesErr(results: seq<Result<Option<Json>>>, n: nat)
    requires n <= |results| && KeepPages(results[..n]).Err?
    ensures KeepPages(results) == KeepPages(results[..n])
    decreases |results| - n
  {
    if n < |results| {
      assert results[..n + 1][..n] == results[..n];
      KeepPagesErr(results, n + 1);
    } else {
      assert results[..n] == results;
    }
  }

  /** When every page that comes back is a recovered page, so is every
      page kept, and there are no more of them than results. */
  lemma {:induction false} KeepPagesShape(results: seq<Result<Option<Json>>>)
    requires forall k :: 0 <= k < |results| && results[k].Ok? && results[k].value.Some? ==>
      RecoveredPage(results[k].value.value)
    ensures var r := KeepPages(results);
      r.Ok? ==> |r.value| <= |results| && forall k :: 0 <= k < |r.value| ==> RecoveredPage(r.value[k])
  {
    if results != [] {
      var n := |results| - 1;
      assert forall k :: 0 <= k < n ==> results[..n][k] == results[k];
      KeepPagesShape(results[..n]);
    }
  }

  /** A page that comes back from a reference passed the page check. */
  lemma ExtractPageShape(text: string, decode: string -> Option<Json>, starts: seq<nat>, index: nat)
    requires index < |starts|
    ensures var p := ExtractPageObject(text, decode, starts, index);
      p.Ok? && p.value.Some? ==> RecoveredPage(p.value.value)
  {
    var p := ExtractPageObject(text, decode, starts, index);
    if p.Ok? && p.value.Some? {
      var objStart := RFind(text, '{', starts[index]);
      var searchEnd := if index < |starts| - 1 then RFind(text, '{', starts[index + 1]) else |text|;
      var objEnd := ObjectEnd(text, objStart, searchEnd);
      ValidatedPageShape(decode(text[objStart..objEnd]).value);
    }
  }

  /** Every page recovered from the references passed the page check. */
  lemma RecoveredPagesShape(text: string, decode: string -> Option<Json>, starts: seq<nat>)
    ensures var r := KeepPages(PageResults(text, decode, starts));
      r.Ok? ==> |r.value| <= |starts| && forall k :: 0 <= k < |r.value| ==> RecoveredPage(r.value[k])
  {
    var results := PageResults(text, decode, starts);
    forall k | 0 <= k < |results| && results[k].Ok? && results[k].value.Some?
      ensures RecoveredPage(results[k].value.value)
    {
      ExtractPageShape(text, decode, starts, k);
    }
    KeepPagesShape(results);
  }

  /** `len(p.get("questions", []))`, for a page that has a list of questions. */
  function PageQuestionCount(p: Json): nat
  {
    var qs := GetOr(p, "questions", Arr([]));
    if qs.Ok? && Len(qs.value).Ok? then Len(qs.value).value else 0
  }

  function TotalQuestions(pages: seq<Json>): nat
  {
    if pages == [] then 0 else PageQuestionCount(pages[0]) + TotalQuestions(pages[1..])
  }

  /** The answer built from the recovered pages. */
  function PartialJokboResult(pages: seq<Json>): Json
  {
    Obj([("jokbo_pages", Arr(pages)), ("partial", Bool(true)),
         ("recovered_pages", Num(|pages|)), ("total_questions_recovered", Num(TotalQuestions(pages)))])
  }

  /** What `_parse_partial_jokbo_centric` answers; an exception raised on
      the way becomes an error dict. */
  function PartialJokbo(text: string, decode: string -> Option<Json>): Json
  {
    if !Contains(text, "\"jokbo_pages\"") then ErrorDict("No jokbo_pages found")
    else JokboAnswer(KeepPages(PageResults(text, decode, PageStarts(text, 0))))
  }

  /** The answer once the loop over the references is done. */
  function JokboAnswer(r: Result<seq<Json>>): Json
  {
    if r.Err? then ErrorDict(r.msg)
    else if r.value != [] then PartialJokboResult(r.value)
    else ErrorDict("No complete pages could be recovered")
  }

  /** The loop over the page references. */
  method RecoverAll(text: string, decode: string -> Option<Json>, starts: seq<nat>) returns (r: Result<seq<Json>>)
    ensures r == KeepPages(PageResults(text, decode, starts))
  {
    ghost var results := PageResults(text, decode, starts);
    var recovered: seq<Json> := [];
    var i := 0;
    while i < |starts|
      invariant 0 <= i <= |starts|
      invariant KeepPages(results[..i]) == Ok(recovered)
    {
      var p := ExtractPageObject(text, decode, starts, i);
      assert p == results[i];
      assert results[..i + 1][..i] == results[..i];
      if p.Err? {
        KeepPagesErr(results, i + 1);
        return Err(p.msg);
      }
      if p.value.Some? && Truthy(p.value.value) {
        recovered := recovered + [p.value.value];
      }
      i := i + 1;
    }
    assert results[..i] == results;
    return Ok(recovered);
  }

  /** `_parse_partial_jokbo_centric`. */
  method ParsePartialJokboCentric(text: string, decode: string -> Option<Json>) returns (r: Json)
    ensures r == PartialJokbo(text, decode)
  {
    if Find(text, "\"jokbo_pages\"") == -1 {
      return ErrorDict("No jokbo_pages found");
    }
    var starts := PageStarts(text, 0);
    var recovered := RecoverAll(text, decode, starts);
    if recovered.Err? {
      return ErrorDict(recovered.msg);
    }
    if recovered.value != [] {
      return PartialJokboResult(recovered.value);
    }
    return ErrorDict("No complete pages could be recovered");
  }

  /** The partial answer is an error dict, or it lists the recovered
      pages (each with `jokbo_page` and a non-empty list of complete
      questions), says it is partial, and counts the pages and their
      questions; without `"jokbo_pages"` in the text it is the error. */
  lemma PartialJokboSpec(text: string, decode: string -> Option<Json>)
    ensures var r := PartialJokbo(text, decode);
      && (!Contains(text, "\"jokbo_pages\"") ==> r == ErrorDict("No jokbo_pages found"))
      && (IsErrorDict(r) || exists pages: seq<Json> :: RecoveredAnswer(r, pages))
  {
    if Contains(text, "\"jokbo_pages\"") {
      var starts := PageStarts(text, 0);
      RecoveredPagesShape(text, decode, starts);
      JokboAnswerSpec(KeepPages(PageResults(text, decode, starts)));
    } else {
      assert PartialJokbo(text, decode) == ErrorDict("No jokbo_pages found");
    }
  }

  lemma JokboAnswerSpec(rp: Result<seq<Json>>)
    requires rp.Ok? ==> forall k :: 0 <= k < |rp.value| ==> RecoveredPage(rp.value[k])
    ensures var r := JokboAnswer(rp);
      IsErrorDict(r) || exists pages: seq<Json> :: RecoveredAnswer(r, pages)
  {
    var r := JokboAnswer(rp);
    if rp.Err? {
      assert r == ErrorDict(rp.msg);
    } else if rp.value == [] {
      assert r == ErrorDict("No complete pages could be recovered");
    } else {
      assert RecoveredAnswer(r, rp.value);
    }
  }

  /** `r` is the answer built from `pages`, none of them empty. */
  ghost predicate RecoveredAnswer(r: Json, pages: seq<Json>)
  {
    && r == PartialJokboResult(pages)
    && pages != []
    && forall k :: 0 <= k < |pages| ==> RecoveredPage(pages[k])
  }

  /** On recovered pages the count read for each page is the length of
      its list of questions, so the total is at least the number of pages. */
  lemma {:induction false} TotalQuestionsSpec(pages: seq<Json>)
    requires forall k :: 0 <= k < |pages| ==> RecoveredPage(pages[k])
    ensures forall k :: 0 <= k < |pages| ==> PageQuestionCount(pages[k]) == |QuestionItems(pages[k])|
    ensures TotalQuestions(pages) >= |pages|
  {
    if pages != [] {
      TotalQuestionsSpec(pages[1..]);
      assert RecoveredPage(pages[0]);
      assert forall k :: 1 <= k < |pages| ==> pages[k] == pages[1..][k - 1];
    }
  }

  // ---------------------------------------------------------------------
  // Partial recovery, lesson-centred answers
  // ---------------------------------------------------------------------

  /** `c * n` in Python: empty when `n` is not positive. */
  function Repeat(c: char, n: int): (r: string)
    ensures |r| == Max(0, n) && forall k :: 0 <= k < |r| ==> r[k] == c
  {
    if n <= 0 then [] else [c] + Repeat(c, n - 1)
  }

  /** `s.count(c)` for one character. */
  function CountOf(s: string, c: char): nat
  {
    if s == [] then 0 else (if s[0] == c then 1 else 0) + CountOf(s[1..], c)
  }

  lemma {:induction false} CountOfConcat(a: string, b: string, c: char)
    ensures CountOf(a + b, c) == CountOf(a, c) + CountOf(b, c)
  {
    if a != [] {
      CountOfConcat(a[1..], b, c);
      var ab := a + b;
      assert ab[0] == a[0] && ab[1..] == a[1..] + b;
      assert CountOf(ab, c) == (if a[0] == c then 1 else 0) + CountOf(a[1..] + b, c);
    } else {
      assert a + b == b;
    }
  }

  lemma {:induction false} RepeatCount(c: char, n: int, d: char)
    ensures CountOf(Repeat(c, n), d) == if d == c then Max(0, n) else 0
    decreases n
  {
    if n > 0 {
      RepeatCount(c, n - 1, d);
      assert Repeat(c, n)[1..] == Repeat(c, n - 1);
    }
  }

  /** The text tried with the first `i` characters: an opening brace, the
      prefix, then as many `]` and `}` as there are unmatched `[` and `{`. */
  function Candidate(content: string, i: nat): string
    requires i <= |content|
  {
    var t := "{" + content[..i];
    var openBraces := CountOf(t, '{') - CountOf(t, '}');
    var openBrackets := CountOf(t, '[') - CountOf(t, ']');
    t + Repeat(']', openBrackets) + Repeat('}', openBraces)
  }

  /** The closers added balance the candidate: when the prefix has no
      more closing than opening braces (or brackets), the candidate has as
      many of each as it opens. */
  lemma CandidateBalanced(content: string, i: nat)
    requires i <= |content|
    ensures var t := "{" + content[..i];
      var c := Candidate(content, i);
      && (CountOf(t, '{') >= CountOf(t, '}') ==> CountOf(c, '{') == CountOf(c, '}'))
      && (CountOf(t, '[') >= CountOf(t, ']') ==> CountOf(c, '[') == CountOf(c, ']'))
  {
    var t := "{" + content[..i];
    var openBraces := CountOf(t, '{') - CountOf(t, '}');
    var openBrackets := CountOf(t, '[') - CountOf(t, ']');
    var r1 := Repeat(']', openBrackets);
    var r2 := Repeat('}', openBraces);
    forall d | d in "{}[]"
      ensures CountOf(Candidate(content, i), d) == CountOf(t, d) + CountOf(r1, d) + CountOf(r2, d)
    {
      CountOfConcat(t, r1, d);
      CountOfConcat(t + r1, r2, d);
    }
    RepeatCount(']', openBrackets, '{');
    RepeatCount(']', openBrackets, '}');
    RepeatCount(']', openBrackets, '[');
    RepeatCount(']', openBrackets, ']');
    RepeatCount('}', openBraces, '{');
    RepeatCount('}', openBraces, '}');
    RepeatCount('}', openBraces, '[');
    RepeatCount('}', openBraces, ']');
  }

  /** What is done with a decoded candidate: one whose `related_slides`
      has elements is returned marked partial, with the slide count. */
  function AcceptSlides(parsed: Json): Result<Option<Json>>
  {
    var has := In("related_slides", parsed);
    if has.Err? then Err(has.msg)
    else if !has.value then Ok(None)
    else
      var v := Index(parsed, "related_slides");
      if v.Err? then Err(v.msg)
      else
        var n := Len(v.value);
        if n.Err? then Err(n.msg)
        else if n.value > 0 then
          Ok(Some(Obj(Assign(Assign(parsed.fields, "partial", Bool(true)), "recovered_slides", Num(n.value)))))
        else Ok(None)
  }

  /** The candidates of lengths `i`, `i - 100`, ... above `lo`, tried in
      that order: the first accepted one, or `None`. */
  function Progressive(content: string, decode: string -> Option<Json>, i: int, lo: nat): Result<Option<Json>>
    requires i <= |content|
    decreases i - lo
  {
    if i <= lo then Ok(None)
    else
      var attempt := Attempt(content, decode, i);
      if attempt.Err? || attempt.value.Some? then attempt
      else Progressive(content, decode, i - 100, lo)
  }

  /** One try: the candidate of length `i`, if it decodes and is accepted. */
  function Attempt(content: string, decode: string -> Option<Json>, i: nat): Result<Option<Json>>
    requires i <= |content|
  {
    match decode(Candidate(content, i))
    case None => Ok(None)
    case Some(p) => AcceptSlides(p)
  }

  /** What `_parse_partial_lesson_centric` computes before its exception
      handler: the error dict when `"related_slides"` is missing, else the
      first accepted candidate among the last 10000 characters' prefixes. */
  function PartialLesson(text: string, decode: string -> Option<Json>): Result<Json>
  {
    var idx := Find(text, "\"related_slides\"");
    if idx == -1 then Ok(ErrorDict("No related_slides found"))
    else
      var content := text[idx..];
      var a := Progressive(content, decode, |content|, Max(0, |content| - 10000));
      if a.Err? then Err(a.msg)
      else if a.value.Some? then Ok(a.value.value)
      else Ok(ErrorDict("Failed to parse even partially"))
  }

  /** The exception handler of the lesson recovery: an error becomes an
      error dict. */
  function Caught(r: Result<Json>): Json
  {
    if r.Err? then ErrorDict(r.msg) else r.value
  }

  /** The loop over candidate lengths, longest first, 100 characters
      shorter each time, over the last 10000 characters at most. */
  method TryCandidates(content: string, decode: string -> Option<Json>) returns (a: Result<Option<Json>>)
    ensures a == Progressive(content, decode, |content|, Max(0, |content| - 10000))
  {
    var lo := Max(0, |content| - 10000);
    var i := |content|;
    while i > lo
      invariant i <= |content|
      invariant Progressive(content, decode, |content|, lo) == Progressive(content, decode, i, lo)
      decreases i - lo
    {
      var attempt := Attempt(content, decode, i);
      assert Progressive(content, decode, i, lo) ==
        if attempt.Err? || attempt.value.Some? then attempt else Progressive(content, decode, i - 100, lo);
      if attempt.Err? || attempt.value.Some? {
        return attempt;
      }
      i := i - 100;
    }
    return Ok(None);
  }

  /** `_parse_partial_lesson_centric`. */
  method ParsePartialLessonCentric(text: string, decode: string -> Option<Json>) returns (r: Json)
    ensures r == Caught(PartialLesson(text, decode))
  {
    var idx := Find(text, "\"related_slides\"");
    if idx == -1 {
      return ErrorDict("No related_slides found");
    }
    var a := TryCandidates(text[idx..], decode);
    if a.Err? {
      return ErrorDict(a.msg);
    }
    if a.value.Some? {
      return a.value.value;
    }
    return ErrorDict("Failed to parse even partially");
  }

  /** An accepted candidate is a dict marked partial whose slide count is
      the positive length of its `related_slides`. */
  lemma AcceptSlidesSpec(parsed: Json)
    ensures var a := AcceptSlides(parsed);
      a.Ok? && a.value.Some? ==>
        && a.value.value.Obj?
        && Lookup(a.value.value.fields, "partial") == Some(Bool(true))
        && Lookup(a.value.value.fields, "related_slides").Some?
        && exists n: nat :: n > 0 && Lookup(a.value.value.fields, "recovered_slides") == Some(Num(n))
             && Len(Lookup(a.value.value.fields, "related_slides").value) == Ok(n)
  {
    var a := AcceptSlides(parsed);
    if a.Ok? && a.value.Some? {
      var v := Index(parsed, "related_slides").value;
      var n := Len(v).value;
      var f1 := Assign(parsed.fields, "partial", Bool(true));
      assert Lookup(f1, "related_slides") == Lookup(parsed.fields, "related_slides");
    }
  }

  // ---------------------------------------------------------------------
  // Entry points
  // ---------------------------------------------------------------------

  /** What `parse_partial_json` answers for each mode. */
  function PartialJson(text: string, mode: string, decode: string -> Option<Json>): Json
  {
    if mode == "jokbo-centric" then PartialJokbo(text, decode)
    else if mode == "lesson-centric" then Caught(PartialLesson(text, decode))
    else ErrorDict("Partial parsing not implemented for mode: " + mode)
  }

  /** `parse_partial_json`. */
  method ParsePartialJson(text: string, mode: string, decode: string -> Option<Json>) returns (r: Json)
    ensures r == PartialJson(text, mode, decode)
  {
    if mode == "jokbo-centric" {
      r := ParsePartialJokboCentric(text, decode);
    } else if mode == "lesson-centric" {
      r := ParsePartialLessonCentric(text, decode);
    } else {
      r := ErrorDict("Partial parsing not implemented for mode: " + mode);
    }
  }

  /** `parse_response_json`: the cleaned text when it decodes; otherwise
      the partial recovery, which reads the text as it came. */
  method ParseResponseJson(text: string, mode: string, decode: string -> Option<Json>) returns (r: Json)
    ensures decode(CleanJsonText(text)).Some? ==> r == decode(CleanJsonText(text)).value
    ensures decode(CleanJsonText(text)).None? ==> r == PartialJson(text, mode, decode)
  {
    var cleaned := CleanJsonText(text);
    var parsed := decode(cleaned);
    if parsed.Some? {
      return parsed.value;
    }
    r := ParsePartialJson(text, mode, decode);
  }

  /** Every answer of the partial recovery is a dict marked partial: an
      error dict, the recovered pages, or an accepted lesson candidate;
      an unknown mode gets the error naming it. */
  lemma PartialJsonFlagged(text: string, mode: string, decode: string -> Option<Json>)
    ensures var r := PartialJson(text, mode, decode);
      && r.Obj? && Lookup(r.fields, "partial") == Some(Bool(true))
      && (mode != "jokbo-centric" && mode != "lesson-centric" ==>
            r == ErrorDict("Partial parsing not implemented for mode: " + mode))
  {
    if mode == "jokbo-centric" {
      PartialJokboSpec(text, decode);
    } else if mode == "lesson-centric" {
      LessonFlagged(text, decode);
    }
  }

  lemma LessonFlagged(text: string, decode: string -> Option<Json>)
    ensures var r := Caught(PartialLesson(text, decode));
      r.Obj? && Lookup(r.fields, "partial") == Some(Bool(true))
  {
    var idx := Find(text, "\"related_slides\"");
    if idx != -1 {
      var content := text[idx..];
      var a := Progressive(content, decode, |content|, Max(0, |content| - 10000));
      ProgressiveAccepted(content, decode, |content|, Max(0, |content| - 10000));
      if a.Ok? && a.value.Some? {
        var p :| AcceptSlides(p) == a;
        AcceptSlidesSpec(p);
      }
    }
  }

  /** What the candidate search returns was accepted. */
  lemma {:induction false} ProgressiveAccepted(content: string, decode: string -> Option<Json>, i: int, lo: nat)
    requires i <= |content|
    ensures var a := Progressive(content, decode, i, lo);
      a.Ok? && a.value.Some? ==> exists p :: AcceptSlides(p) == a
    decreases i - lo
  {
    if i > lo {
      var a := Attempt(content, decode, i);
      if a.Err? || a.value.Some? {
        if a.Ok? {
          assert AcceptSlides(decode(Candidate(content, i)).value) == a;
        }
      } else {
        ProgressiveAccepted(content, decode, i - 100, lo);
      }
    }
  }
}
