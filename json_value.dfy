/** Decoded JSON, as `json.loads` hands it to the parsers, and the few
    Python operations the parsers apply to it: truthiness, `key in x`,
    iteration, `len`, `x.get(key, default)`, `x[key]` and `x[key] = v`.
    An operation Python refuses (`in` on a number, `.get` on a list) is an
    `Err` carrying the exception's message. */
module JsonValues {
  import opened Common

  /** JSON numbers are whole numbers here. An object keeps its keys in
      insertion order, each key once, as a Python dict does. */
  datatype Json =
    | Null
    | Bool(b: bool)
    | Num(n: int)
    | Str(s: string)
    | Arr(items: seq<Json>)
    | Obj(fields: seq<(string, Json)>)

  /** Python's truth value: `None`, `False`, `0`, `""`, `[]` and `{}` are false. */
  predicate Truthy(j: Json)
  {
    match j
    case Null => false
    case Bool(b) => b
    case Num(n) => n != 0
    case Str(s) => s != ""
    case Arr(items) => items != []
    case Obj(fields) => fields != []
  }

  predicate HasKey(fields: seq<(string, Json)>, key: string)
  {
    exists i :: 0 <= i < |fields| && fields[i].0 == key
  }

  /** The value stored under `key`. */
  function Lookup(fields: seq<(string, Json)>, key: string): (r: Option<Json>)
    ensures r.Some? <==> HasKey(fields, key)
  {
    if fields == [] then None
    else if fields[0].0 == key then Some(fields[0].1)
    else
      var r := Lookup(fields[1..], key);
      assert forall i :: 1 <= i < |fields| ==> fields[i] == fields[1..][i - 1];
      assert HasKey(fields[1..], key) ==> HasKey(fields, key) by {
        if HasKey(fields[1..], key) {
          var i :| 0 <= i < |fields[1..]| && fields[1..][i].0 == key;
          assert fields[i + 1].0 == key;
        }
      }
      r
  }

  /** `d[key] = v`: an existing key keeps its place, a new key goes last. */
  function Assign(fields: seq<(string, Json)>, key: string, v: Json): (r: seq<(string, Json)>)
    ensures Lookup(r, key) == Some(v)
    ensures forall k :: k != key ==> Lookup(r, k) == Lookup(fields, k)
  {
    if fields == [] then [(key, v)]
    else if fields[0].0 == key then [(key, v)] + fields[1..]
    else [fields[0]] + Assign(fields[1..], key, v)
  }

  /** `{"error": msg, "partial": True}`, the parsers' failure answer. */
  function ErrorDict(msg: string): Json
  {
    Obj([("error", Str(msg)), ("partial", Bool(true))])
  }

  ghost predicate IsErrorDict(j: Json)
  {
    exists msg :: j == ErrorDict(msg)
  }

  /** `key in x` for a string `key`: a key of a dict, an element of a
      list, a substring of a string; numbers, booleans and `None` raise. */
  function In(key: string, j: Json): Result<bool>
  {
    match j
    case Obj(fields) => Ok(HasKey(fields, key))
    case Arr(items) => Ok(Str(key) in items)
    case Str(s) => Ok(Contains(s, key))
    case _ => Err("argument of type is not iterable")
  }

  /** `for x in j`: the elements of a list, the keys of a dict, the
      one-character strings of a string; anything else raises. */
  function Iter(j: Json): Result<seq<Json>>
  {
    match j
    case Arr(items) => Ok(items)
    case Obj(fields) => Ok(seq(|fields|, i requires 0 <= i < |fields| => Str(fields[i].0)))
    case Str(s) => Ok(seq(|s|, i requires 0 <= i < |s| => Str([s[i]])))
    case _ => Err("object is not iterable")
  }

  /** `len(j)`. */
  function Len(j: Json): Result<nat>
  {
    match j
    case Arr(items) => Ok(|items|)
    case Obj(fields) => Ok(|fields|)
    case Str(s) => Ok(|s|)
    case _ => Err("object has no len()")
  }

  /** `j.get(key, default)`: only dicts have `get`. */
  function GetOr(j: Json, key: string, default: Json): Result<Json>
  {
    match j
    case Obj(fields) =>
      (match Lookup(fields, key)
       case Some(v) => Ok(v)
       case None => Ok(default))
    case _ => Err("object has no attribute 'get'")
  }

  /** `j[key]` for a string `key`. */
  function Index(j: Json, key: string): Result<Json>
  {
    match j
    case Obj(fields) =>
      (match Lookup(fields, key)
       case Some(v) => Ok(v)
       case None => Err("KeyError"))
    case _ => Err("indices must be integers")
  }

  /** `key in j` fails exactly on numbers, booleans and `None`, and on a
      dict it is key presence. */
  lemma InSpec(key: string, j: Json)
    ensures In(key, j).Err? <==> j.Null? || j.Bool? || j.Num?
    ensures j.Obj? ==> In(key, j) == Ok(Lookup(j.fields, key).Some?)
  {
  }
}
