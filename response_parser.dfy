/** The stand-alone response parser (`ResponseParser`): decode the
    service's answer, and when it does not decode, recover what can be
    recovered. It shares the scanner, the question check and the lesson
    recovery with `JsonParser`, but differs from it in three ways: the
    text is not cleaned first, each page object is scanned up to the next
    page reference itself, and an exception raised during recovery is not
    caught, so it reaches the caller (an `Err` here). */
module ResponseParser {
  import opened Common
  import opened JsonValues
  import JsonParser

  // ---------------------------------------------------------------------
  // One page object
  // ---------------------------------------------------------------------

  /** What `_extract_json_object` answers: the object opened by the last
      `{` before `startPos`, closed by its balancing brace before
      `nextPos`, decoded; `None` when there is no such brace, when the
      braces do not balance in time, or when the text does not decode. */
  function JsonObjectAt(text: string, decode: string -> Option<Json>, startPos: nat, nextPos: int): Option<Json>
  {
    var objStart := JsonParser.RFind(text, '{', startPos);
    if objStart == -1 then None
    else
      var objEnd := JsonParser.ObjectEnd(text, objStart, nextPos);
      if objEnd > objStart then decode(text[objStart..objEnd]) else None
  }

  /** `_extract_json_object`. The bracket count is kept as the source
      keeps it; nothing reads it. */
  method ExtractJsonObject(text: string, decode: string -> Option<Json>, startPos: nat, nextPos: int)
    returns (r: Option<Json>)
    ensures r == JsonObjectAt(text, decode, startPos, nextPos)
  {
    var objStart := JsonParser.RFind(text, '{', startPos);
    if objStart == -1 {
      return None;
    }
    var braceCount := 0;
    var bracketCount := 0;
    var inString := false;
    var escapeNext := false;
    var objEnd := -1;
    var hi := Min(nextPos, |text|);
    var j := objStart;
    while j < hi
      invariant objStart <= j && (objStart <= hi ==> j <= hi)
      invariant j <= |text|
      invariant JsonParser.ScanState(braceCount, inString, escapeNext) == JsonParser.StateAt(text, objStart, j)
      invariant JsonParser.FirstClose(text, objStart, hi, objStart) == JsonParser.FirstClose(text, objStart, hi, j)
    {
      var c := text[j];
      if escapeNext {
        escapeNext := false;
      } else if c == '\\' {
        escapeNext := true;
      } else if c == '"' {
        inString := !inString;
      } else if !inString {
        if c == '{' {
          braceCount := braceCount + 1;
        } else if c == '}' {
          braceCount := braceCount - 1;
          if braceCount == 0 {
            objEnd := j + 1;
            break;
          }
        } else if c == '[' {
          bracketCount := bracketCount + 1;
        } else if c == ']' {
          bracketCount := bracketCount - 1;
        }
      }
      j := j + 1;
    }
    assert objEnd == JsonParser.ObjectEnd(text, objStart, nextPos);
    if objEnd > objStart {
      return decode(text[objStart..objEnd]);
    }
    return None;
  }

  /** A decoded object is the text from a `{` up to its balancing `}`,
      inside the window: the count is positive in between and zero after
      it; when the braces never balance before `nextPos` the answer is
      `None`. */
  lemma JsonObjectAtSpec(text: string, decode: string -> Option<Json>, startPos: nat, nextPos: int)
    ensures var objStart := JsonParser.RFind(text, '{', startPos);
      var r := JsonObjectAt(text, decode, startPos, nextPos);
      && (objStart == -1 ==> r.None?)
      && (objStart >= 0 && JsonParser.ObjectEnd(text, objStart, nextPos) == -1 ==> r.None?)
      && (r.Some? ==> Balanced(text, objStart, nextPos, decode, r.value))
  {
    var objStart := JsonParser.RFind(text, '{', startPos);
    if objStart >= 0 {
      var e := JsonParser.ObjectEnd(text, objStart, nextPos);
      JsonParser.ObjectEndBalanced(text, objStart, nextPos);
      if e > objStart {
        assert objStart < e <= Min(nextPos, |text|);
      }
    }
  }

  /** `v` is the decoding of `text[objStart..e]` for an `e` in the window
      after which the object opened by the `{` at `objStart` is closed
      and before which it is open. */
  ghost predicate Balanced(text: string, objStart: int, nextPos: int, decode: string -> Option<Json>, v: Json)
  {
    exists e: nat :: 0 <= objStart < e <= Min(nextPos, |text|) && text[objStart] == '{'
      && JsonParser.StateAt(text, objStart, e).depth == 0
      && (forall k :: objStart < k < e ==> JsonParser.StateAt(text, objStart, k).depth >= 1)
      && decode(text[objStart..e]) == Some(v)
  }

  // ---------------------------------------------------------------------
  // Checking a page
  // ---------------------------------------------------------------------

  /** `_validate_jokbo_page`: whether the page is kept, and the page as
      the call leaves it, with `questions` narrowed to its complete
      questions when it is kept. This is the page check of `JsonParser`,
      read as a boolean and an update in place. */
  method ValidateJokboPage(page: Json) returns (r: Result<bool>, updated: Json)
    ensures JsonParser.ValidatedPage(page) ==
      if r.Err? then Err(r.msg) else if r.value then Ok(Some(updated)) else Ok(None)
    ensures r != Ok(true) ==> updated == page
  {
    updated := page;
    var a := In("jokbo_page", page);
    if a.Err? {
      return Err(a.msg), page;
    }
    if !a.value {
      return Ok(false), page;
    }
    var b := In("questions", page);
    if b.Err? {
      return Err(b.msg), page;
    }
    if !b.value {
      return Ok(false), page;
    }
    var qs := GetOr(page, "questions", Arr([]));
    if qs.Err? {
      return Err(qs.msg), page;
    }
    var it := Iter(qs.value);
    if it.Err? {
      return Err(it.msg), page;
    }
    var questions := it.value;
    var valid: seq<Json> := [];
    var i := 0;
    while i < |questions|
      invariant 0 <= i <= |questions|
      invariant JsonParser.KeepComplete(questions[..i]) == Ok(valid)
    {
      var q := questions[i];
      assert questions[..i + 1][..i] == questions[..i];
      var c := JsonParser.Complete(q);
      if c.Err? {
        JsonParser.KeepCompleteErr(questions, i + 1);
        return Err(c.msg), page;
      }
      if c.value {
        valid := valid + [q];
      }
      i := i + 1;
    }
    assert questions[..i] == questions;
    if valid != [] {
      updated := Obj(Assign(page.fields, "questions", Arr(valid)));
      return Ok(true), updated;
    }
    return Ok(false), page;
  }

  // ---------------------------------------------------------------------
  // Partial recovery, exam-centred answers
  // ---------------------------------------------------------------------

  /** What the `i`-th page reference yields: the object scanned from the
      `{` before it up to the next reference (or the end of the text),
      kept when it is truthy and passes the page check. */
  function PageResult(text: string, decode: string -> Option<Json>, starts: seq<nat>, i: nat): Result<Option<Json>>
    requires i < |starts|
  {
    var nextPos := if i < |starts| - 1 then starts[i + 1] else |text|;
    var obj := JsonObjectAt(text, decode, starts[i], nextPos);
    if obj.None? || !Truthy(obj.value) then Ok(None) else JsonParser.ValidatedPage(obj.value)
  }

  function PageResults(text: string, decode: string -> Option<Json>, starts: seq<nat>): (r: seq<Result<Option<Json>>>)
    ensures |r| == |starts|
  {
    seq(|starts|, i requires 0 <= i < |starts| => PageResult(text, decode, starts, i))
  }

  /** What `_parse_partial_jokbo` answers; an exception raised on the way
      is an `Err`. */
  function PartialJokbo(text: string, decode: string -> Option<Json>): Result<Json>
  {
    if !Contains(text, "\"jokbo_pages\"") then Ok(ErrorDict("No jokbo_pages found"))
    else JokboAnswer(JsonParser.KeepPages(PageResults(text, decode, JsonParser.PageStarts(text, 0))))
  }

  /** The answer once the loop over the references is done: nothing
      catches an error here. */
  function JokboAnswer(r: Result<seq<Json>>): Result<Json>
  {
    if r.Err? then Err(r.msg)
    else if r.value != [] then Ok(JsonParser.PartialJokboResult(r.value))
    else Ok(ErrorDict("No complete pages could be recovered"))
  }

  /** `_parse_partial_jokbo`. */
  method ParsePartialJokbo(text: string, decode: string -> Option<Json>) returns (r: Result<Json>)
    ensures r == PartialJokbo(text, decode)
  {
    if Find(text, "\"jokbo_pages\"") == -1 {
      return Ok(ErrorDict("No jokbo_pages found"));
    }
    var starts := JsonParser.PageStarts(text, 0);
    var recovered := RecoverAll(text, decode, starts);
    if recovered.Err? {
      return Err(recovered.msg);
    }
    if recovered.value != [] {
      return Ok(JsonParser.PartialJokboResult(recovered.value));
    }
    return Ok(ErrorDict("No complete pages could be recovered"));
  }

  /** The loop over the page references. */
  method RecoverAll(text: string, decode: string -> Option<Json>, starts: seq<nat>) returns (r: Result<seq<Json>>)
    ensures r == JsonParser.KeepPages(PageResults(text, decode, starts))
  {
    ghost var results := PageResults(text, decode, starts);
    var recovered: seq<Json> := [];
    var i := 0;
    while i < |starts|
      invariant 0 <= i <= |starts|
      invariant JsonParser.KeepPages(results[..i]) == Ok(recovered)
    {
      var nextPos := if i < |starts| - 1 then starts[i + 1] else |text|;
      var pageObj := ExtractJsonObject(text, decode, starts[i], nextPos);
      var p: Result<Option<Json>> := Ok(None);
      if pageObj.Some? && Truthy(pageObj.value) {
        var valid, updated := ValidateJokboPage(pageObj.value);
        if valid.Err? {
          p := Err(valid.msg);
        } else if valid.value {
          p := Ok(Some(updated));
        }
      }
      assert p == results[i];
      assert results[..i + 1][..i] == results[..i];
      if p.Err? {
        JsonParser.KeepPagesErr(results, i + 1);
        return Err(p.msg);
      }
      if p.value.Some? && Truthy(p.value.value) {
        recovered := recovered + [p.value.value];
      }
      i := i + 1;
    }
    assert results[..i] == results;
    return Ok(recovered);
  }

  /** A page that comes back from a reference passed the page check. */
  lemma PageResultShape(text: string, decode: string -> Option<Json>, starts: seq<nat>, i: nat)
    requires i < |starts|
    ensures var p := PageResult(text, decode, starts, i);
      p.Ok? && p.value.Some? ==> JsonParser.RecoveredPage(p.value.value)
  {
    var p := PageResult(text, decode, starts, i);
    if p.Ok? && p.value.Some? {
      var nextPos := if i < |starts| - 1 then starts[i + 1] else |text|;
      JsonParser.ValidatedPageShape(JsonObjectAt(text, decode, starts[i], nextPos).value);
    }
  }

  /** The recovery either fails with the exception raised on the way, or
      answers an error dict, or lists the recovered pages (each with
      `jokbo_page` and a non-empty list of complete questions), marked
      partial, with their count and the count of their questions. */
  lemma PartialJokboSpec(text: string, decode: string -> Option<Json>)
    ensures var r := PartialJokbo(text, decode);
      && (!Contains(text, "\"jokbo_pages\"") ==> r == Ok(ErrorDict("No jokbo_pages found")))
      && (r.Ok? ==> IsErrorDict(r.value) || exists pages: seq<Json> :: JsonParser.RecoveredAnswer(r.value, pages))
  {
    if Contains(text, "\"jokbo_pages\"") {
      var starts := JsonParser.PageStarts(text, 0);
      var results := PageResults(text, decode, starts);
      forall k | 0 <= k < |results| && results[k].Ok? && results[k].value.Some?
        ensures JsonParser.RecoveredPage(results[k].value.value)
      {
        PageResultShape(text, decode, starts, k);
      }
      JsonParser.KeepPagesShape(results);
      JokboAnswerSpec(JsonParser.KeepPages(results));
    }
  }

  lemma JokboAnswerSpec(rp: Result<seq<Json>>)
    requires rp.Ok? ==> forall k :: 0 <= k < |rp.value| ==> JsonParser.RecoveredPage(rp.value[k])
    ensures var r := JokboAnswer(rp);
      && (r.Err? <==> rp.Err?)
      && (r.Ok? ==> IsErrorDict(r.value) || exists pages: seq<Json> :: JsonParser.RecoveredAnswer(r.value, pages))
  {
    var r := JokboAnswer(rp);
    if rp.Ok? && rp.value == [] {
      assert r.value == ErrorDict("No complete pages could be recovered");
    } else if rp.Ok? {
      assert JsonParser.RecoveredAnswer(r.value, rp.value);
    }
  }

  // ---------------------------------------------------------------------
  // Partial recovery, lesson-centred answers
  // ---------------------------------------------------------------------

  /** `_parse_partial_lesson`: the lesson recovery of `JsonParser`
      without its exception handler, so a failure reaches the caller. */
  method ParsePartialLesson(text: string, decode: string -> Option<Json>) returns (r: Result<Json>)
    ensures r == JsonParser.PartialLesson(text, decode)
  {
    var idx := Find(text, "\"related_slides\"");
    if idx == -1 {
      return Ok(ErrorDict("No related_slides found"));
    }
    var a := JsonParser.TryCandidates(text[idx..], decode);
    if a.Err? {
      return Err(a.msg);
    }
    if a.value.Some? {
      return Ok(a.value.value);
    }
    return Ok(ErrorDict("Failed to parse even partially"));
  }

  // ---------------------------------------------------------------------
  // Entry point
  // ---------------------------------------------------------------------

  /** `partial_result.get("error") and not partial_result.get("partial")`
      raises the parsing failure; any other answer is returned. */
  function RaiseIfFailed(partial: Json): Result<Json>
  {
    var err := GetOr(partial, "error", Null);
    if err.Err? then Err(err.msg)
    else if !Truthy(err.value) then Ok(partial)
    else
      var flag := GetOr(partial, "partial", Null);
      if flag.Err? then Err(flag.msg)
      else if Truthy(flag.value) then Ok(partial)
      else Err("Complete JSON parsing failure")
  }

  /** The recovery for `mode`: exam-centred for `"jokbo-centric"`, the
      lesson recovery for any other mode. */
  function PartialFor(text: string, mode: string, decode: string -> Option<Json>): Result<Json>
  {
    if mode == "jokbo-centric" then PartialJokbo(text, decode) else JsonParser.PartialLesson(text, decode)
  }

  /** What `parse_response` answers: the decoded text when it decodes,
      otherwise the recovery for the mode, unless it failed outright. */
  function ParseResponseSpec(text: string, mode: string, decode: string -> Option<Json>): Result<Json>
  {
    match decode(text)
    case Some(v) => Ok(v)
    case None =>
      var partial := PartialFor(text, mode, decode);
      if partial.Err? then partial else RaiseIfFailed(partial.value)
  }

  /** `parse_response`. */
  method ParseResponse(text: string, mode: string, decode: string -> Option<Json>) returns (r: Result<Json>)
    ensures r == ParseResponseSpec(text, mode, decode)
  {
    var parsed := decode(text);
    if parsed.Some? {
      return Ok(parsed.value);
    }
    var partial: Result<Json>;
    if mode == "jokbo-centric" {
      partial := ParsePartialJokbo(text, decode);
    } else {
      partial := ParsePartialLesson(text, decode);
    }
    if partial.Err? {
      return partial;
    }
    r := RaiseIfFailed(partial.value);
  }

  /** Text that decodes comes back as decoded, without recovery; text
      that does not decode comes back as a recovered answer marked
      partial, or as the exception raised during recovery, and never as
      the complete-failure error, since every recovered answer is marked
      partial. */
  lemma ParseResponseSpecProps(text: string, mode: string, decode: string -> Option<Json>)
    ensures var r := ParseResponseSpec(text, mode, decode);
      && (decode(text).Some? ==> r == Ok(decode(text).value))
      && (decode(text).None? ==> r == PartialFor(text, mode, decode))
      && (decode(text).None? && r.Ok? ==> r.value.Obj? && Lookup(r.value.fields, "partial") == Some(Bool(true)))
  {
    if decode(text).None? {
      var partial := PartialFor(text, mode, decode);
      if partial.Ok? {
        PartialFlagged(text, mode, decode);
        var p := partial.value;
        assert GetOr(p, "partial", Null) == Ok(Bool(true));
      }
    }
  }

  /** Every answer of the recovery is a dict marked partial. */
  lemma PartialFlagged(text: string, mode: string, decode: string -> Option<Json>)
    ensures var r := PartialFor(text, mode, decode);
      r.Ok? ==> r.value.Obj? && Lookup(r.value.fields, "partial") == Some(Bool(true))
  {
    if mode == "jokbo-centric" {
      PartialJokboSpec(text, decode);
    } else {
      JsonParser.LessonFlagged(text, decode);
    }
  }

  // ---------------------------------------------------------------------
  // Structure check
  // ---------------------------------------------------------------------

  /** `validate_response_structure`: the answer has a list under
      `jokbo_pages` (exam-centred mode) or `related_slides` (any other
      mode). `in` and indexing refuse what a non-dict refuses. */
  function ValidateResponseStructure(data: Json, mode: string): Result<bool>
  {
    var key := if mode == "jokbo-centric" then "jokbo_pages" else "related_slides";
    var has := In(key, data);
    if has.Err? then Err(has.msg)
    else if !has.value then Ok(false)
    else
      var v := Index(data, key);
      if v.Err? then Err(v.msg) else Ok(v.value.Arr?)
  }

  /** On a dict the check holds exactly when the mode's key holds a list. */
  lemma ValidateResponseStructureSpec(data: Json, mode: string)
    requires data.Obj?
    ensures var key := if mode == "jokbo-centric" then "jokbo_pages" else "related_slides";
      ValidateResponseStructure(data, mode) ==
        Ok(Lookup(data.fields, key).Some? && Lookup(data.fields, key).value.Arr?)
  {
  }

  /** A recovered exam-centred answer passes the exam-centred check; an
      error dict passes neither check. */
  lemma RecoveredAnswerValid(r: Json, pages: seq<Json>, msg: string, mode: string)
    requires JsonParser.RecoveredAnswer(r, pages)
    ensures ValidateResponseStructure(r, "jokbo-centric") == Ok(true)
    ensures ValidateResponseStructure(ErrorDict(msg), mode) == Ok(false)
  {
    assert Lookup(r.fields, "jokbo_pages") == Some(Arr(pages));
    var e := ErrorDict(msg);
    assert Lookup(e.fields, "jokbo_pages").None?;
    assert Lookup(e.fields, "related_slides").None?;
  }
}
