/** The exam-only analyser (`ExamOnlyAnalyzer`): the answer for a chunk of
    an exam lists questions whose page fields count from the chunk's first
    page; `_post_process_pages` moves them to pages of the whole exam. The
    answer is decoded JSON, so each field is whatever the service wrote. */
module ExamOnly {
  import opened Common
  import opened JsonValues

  // ---------------------------------------------------------------------
  // Python's int()
  // ---------------------------------------------------------------------

  /** `int(v)` for the JSON values: a whole number is itself, a boolean is
      0 or 1, a string is an optionally signed run of ASCII digits once
      surrounding whitespace is stripped; anything else raises. */
  function PyInt(v: Json): Result<int>
  {
    match v
    case Num(n) => Ok(n)
    case Bool(b) => Ok(if b then 1 else 0)
    case Str(s) => IntOfString(Strip(s))
    case _ => Err("int() argument must be a string or a number")
  }

  function IntOfString(t: string): Result<int>
  {
    var neg := t != [] && t[0] == '-';
    var body := if t != [] && (t[0] == '-' || t[0] == '+') then t[1..] else t;
    if body != [] && AllDigits(body) then Ok(if neg then -DigitsValue(body) else DigitsValue(body))
    else Err("invalid literal for int()")
  }

  /** `int` reads back what `str` writes, with or without surrounding
      whitespace, and returns a number as it is; a value that is neither a
      number, a boolean nor a string is refused. */
  lemma PyIntSpec(n: int, pad: string)
    requires forall k :: 0 <= k < |pad| ==> IsSpace(pad[k])
    ensures PyInt(Num(n)) == Ok(n)
    ensures PyInt(Str(pad + DecimalString(n) + pad)) == Ok(n)
    ensures PyInt(Null).Err? && (forall a :: PyInt(Arr(a)).Err?) && (forall f :: PyInt(Obj(f)).Err?)
  {
    var d := DecimalString(n);
    StripPadded(pad, d);
    var m := if n < 0 then -n else n;
    DigitsRoundTrip(m);
    if n < 0 {
      assert d[1..] == NatToString(m);
    }
  }

  /** `str(n)`. */
  function DecimalString(n: int): (r: string)
    ensures r != [] && !IsSpace(r[0]) && !IsSpace(r[|r| - 1])
  {
    var ds := NatToString(if n < 0 then -n else n);
    assert IsDigit(ds[|ds| - 1]);
    if n < 0 then "-" + ds else ds
  }

  lemma {:induction false} StripPadded(pad: string, t: string)
    requires forall k :: 0 <= k < |pad| ==> IsSpace(pad[k])
    requires t != [] && !IsSpace(t[0]) && !IsSpace(t[|t| - 1])
    ensures Strip(pad + t + pad) == t
  {
    if pad == [] {
      assert pad + t + pad == t;
    } else {
      var s := pad + t + pad;
      assert s[1..] == pad[1..] + t + pad;
      assert Strip(s) == Strip(pad[1..] + t + pad);
      StripRight(pad[1..], t, pad);
    }
  }

  /** Once the left padding is gone, the right padding is stripped. */
  lemma {:induction false} StripRight(left: string, t: string, pad: string)
    requires forall k :: 0 <= k < |left| ==> IsSpace(left[k])
    requires forall k :: 0 <= k < |pad| ==> IsSpace(pad[k])
    requires t != [] && !IsSpace(t[0]) && !IsSpace(t[|t| - 1])
    ensures Strip(left + t + pad) == t
    decreases |left| + |pad|
  {
    var s := left + t + pad;
    if left != [] {
      assert s[1..] == left[1..] + t + pad;
      StripRight(left[1..], t, pad);
    } else if pad != [] {
      assert s[0] == t[0];
      assert s[..|s| - 1] == left + t + pad[..|pad| - 1];
      StripRight(left, t, pad[..|pad| - 1]);
    } else {
      assert s == t;
    }
  }

  // ---------------------------------------------------------------------
  // One question
  // ---------------------------------------------------------------------

  /** `int(q.get("page_start") or 0)`, 0 when that raises. */
  function PageStart(fields: seq<(string, Json)>): int
  {
    match Lookup(fields, "page_start")
    case None => 0
    case Some(v) =>
      if !Truthy(v) then 0
      else
        match PyInt(v)
        case Ok(n) => n
        case Err(_) => 0
  }

  /** The question's `next_question_start` as a number, when it is there,
      not `None`, and `int` accepts it. */
  function NextStart(fields: seq<(string, Json)>): Option<int>
  {
    match Lookup(fields, "next_question_start")
    case None => None
    case Some(v) =>
      if v.Null? then None
      else
        match PyInt(v)
        case Ok(n) => Some(n)
        case Err(_) => None
  }

  /** The body of the loop for one question dict: `page_start`, then
      `next_question_start`, each assigned in place. */
  function ShiftFields(fields: seq<(string, Json)>, offset: int): seq<(string, Json)>
  {
    var ps := PageStart(fields);
    var f1 := if ps > 0 then Assign(fields, "page_start", Num(ps + offset)) else fields;
    var nqs := NextStart(fields);
    if nqs.Some? && nqs.value > 0 then Assign(f1, "next_question_start", Num(nqs.value + offset)) else f1
  }

  /** A question that is not a dict is skipped. */
  function ShiftQuestion(q: Json, offset: int): Json
  {
    if q.Obj? then Obj(ShiftFields(q.fields, offset)) else q
  }

  function ShiftQuestions(qs: seq<Json>, offset: int): (r: seq<Json>)
    ensures |r| == |qs|
  {
    seq(|qs|, i requires 0 <= i < |qs| => ShiftQuestion(qs[i], offset))
  }

  /** Only the two page fields of a question can change: `page_start` when
      it reads as a positive number, becoming that number plus the offset,
      and `next_question_start` likewise; every other field keeps its value. */
  lemma ShiftFieldsSpec(fields: seq<(string, Json)>, offset: int)
    ensures var r := ShiftFields(fields, offset);
      && (forall k :: k != "page_start" && k != "next_question_start" ==> Lookup(r, k) == Lookup(fields, k))
      && (PageStart(fields) > 0 ==> Lookup(r, "page_start") == Some(Num(PageStart(fields) + offset)))
      && (PageStart(fields) <= 0 ==> Lookup(r, "page_start") == Lookup(fields, "page_start"))
      && (NextStart(fields).Some? && NextStart(fields).value > 0 ==>
            Lookup(r, "next_question_start") == Some(Num(NextStart(fields).value + offset)))
      && (!(NextStart(fields).Some? && NextStart(fields).value > 0) ==>
            Lookup(r, "next_question_start") == Lookup(fields, "next_question_start"))
  {
  }

  // ---------------------------------------------------------------------
  // The whole answer
  // ---------------------------------------------------------------------

  /** The answer's question list, when it is a dict holding a list under
      `questions`. */
  function QuestionList(result: Json): Option<seq<Json>>
  {
    if result.Obj? then
      match Lookup(result.fields, "questions")
      case Some(Arr(items)) => Some(items)
      case _ => None
    else None
  }

  /** `_post_process_pages(result, chunk_info)`. */
  function PostProcessPages(result: Json, chunkInfo: Option<(int, int)>): Json
  {
    var qs := QuestionList(result);
    if chunkInfo.None? || qs.None? then result
    else Obj(Assign(result.fields, "questions", Arr(ShiftQuestions(qs.value, StartOffset(chunkInfo.value.0)))))
  }

  /** The loop of `_post_process_pages`, updating each question dict. */
  method PostProcessPagesLoop(result: Json, chunkInfo: Option<(int, int)>) returns (r: Json)
    ensures r == PostProcessPages(result, chunkInfo)
  {
    var list := QuestionList(result);
    if chunkInfo.None? || list.None? {
      return result;
    }
    var offset := Max(0, chunkInfo.value.0 - 1);
    var qs := list.value;
    ghost var target := ShiftQuestions(qs, offset);
    var i := 0;
    while i < |qs|
      invariant 0 <= i <= |qs| == |list.value|
      invariant forall k :: 0 <= k < i ==> qs[k] == target[k]
      invariant forall k :: i <= k < |qs| ==> qs[k] == list.value[k]
    {
      var q := qs[i];
      if q.Obj? {
        qs := qs[i := Obj(ShiftFields(q.fields, offset))];
      }
      assert qs[i] == target[i];
      i := i + 1;
    }
    assert qs == target;
    r := Obj(Assign(result.fields, "questions", Arr(qs)));
  }

  /** Nothing changes without a chunk, or when the answer is not a dict
      with a list of questions; otherwise only the question list is
      replaced, each question keeping its place, and every other key of the
      answer keeps its value. */
  lemma PostProcessPagesSpec(result: Json, chunkInfo: Option<(int, int)>)
    ensures var r := PostProcessPages(result, chunkInfo);
      && (chunkInfo.None? || !result.Obj? ==> r == result)
      && (result.Obj? && QuestionList(result).None? ==> r == result)
      && (chunkInfo.Some? && QuestionList(result).Some? ==>
            && r.Obj?
            && (forall k :: k != "questions" ==> Lookup(r.fields, k) == Lookup(result.fields, k))
            && QuestionList(r) == Some(ShiftQuestions(QuestionList(result).value, StartOffset(chunkInfo.value.0))))
  {
  }

  /** A page that reads as positive lands in the whole exam at or after
      the chunk's first page; and the first chunk (starting at page 1, or
      at a page below 1) changes no page field. */
  lemma ShiftedPageInChunk(fields: seq<(string, Json)>, start: int)
    ensures PageStart(fields) > 0 ==>
      Lookup(ShiftFields(fields, StartOffset(start)), "page_start").value.n >= Max(1, start)
    ensures start <= 1 && PageStart(fields) > 0 ==>
      Lookup(ShiftFields(fields, StartOffset(start)), "page_start") == Some(Num(PageStart(fields)))
  {
    ShiftFieldsSpec(fields, StartOffset(start));
  }
}
