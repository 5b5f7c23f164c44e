/**
 * JSON values as `json.loads` produces them, with the Python operations the
 * handlers apply to such a value: `key in v`, `v.get(k, default)`, and the
 * iteration `str.join` performs over it.
 */
module Json {
  import opened Wrappers
  import opened PyText
  import PyDict

  /** Numbers are exact reals; the int/float distinction of Python is not kept. */
  datatype Json =
    | JNull
    | JBool(b: bool)
    | JNum(n: real)
    | JStr(s: string)
    | JArr(items: seq<Json>)
    | JObj(fields: PyDict.Dict<Json>)

  /** A JSON object with string keys, as a dictionary literal writes it. */
  predicate HasKey(v: Json, k: string) {
    v.JObj? && k in PyDict.Keys(v.fields)
  }

  /**
   * Python `key in v` for a string `key`: key membership for a dict, element
   * equality for a list, substring for a str; None stands for the TypeError
   * raised for numbers, booleans and None.
   */
  function PyIn(key: string, v: Json): (r: Option<bool>)
    ensures r.None? <==> (v.JNull? || v.JBool? || v.JNum?)
    ensures v.JObj? ==> r == Some(HasKey(v, key))
  {
    match v
    case JObj(fs) => Some(key in PyDict.Keys(fs))
    case JArr(xs) => Some(JStr(key) in xs)
    case JStr(s) => Some(Contains(s, key))
    case _ => None
  }

  /** `v.get(k, default)` on a dict. */
  function Lookup(v: Json, k: string, default: Json): Json
    requires v.JObj?
  {
    PyDict.GetOr(v.fields, k, default)
  }

  /** The strings of a list of strings, in order; None when some element is not a string. */
  function StrItems(xs: seq<Json>): (r: Option<seq<string>>)
    ensures r.Some? <==> forall i :: 0 <= i < |xs| ==> xs[i].JStr?
    ensures r.Some? ==> |r.value| == |xs| && forall i :: 0 <= i < |xs| ==> r.value[i] == xs[i].s
  {
    if xs == [] then Some([])
    else
      match StrItems(xs[1..])
      case None => None
      case Some(rest) => if xs[0].JStr? then Some([xs[0].s] + rest) else None
  }

  /**
   * The strings `sep.join(v)` iterates over: the elements of a list of
   * strings, the characters of a str, the keys of a dict. None stands for
   * the TypeError raised for anything else.
   */
  function JoinOperands(v: Json): Option<seq<string>>
  {
    match v
    case JArr(xs) => StrItems(xs)
    case JStr(s) => Some(seq(|s|, i requires 0 <= i < |s| => [s[i]]))
    case JObj(fs) => Some(PyDict.Keys(fs))
    case _ => None
  }
}

/** How a handler ends when it does not return normally. */
module Http {
  import opened Json

  datatype Failure =
    /** An `HTTPException` raised by the handler: its status code and detail. */
    | HttpError(status: int, detail: Json)
    /** Any other exception, which the framework answers with status 500. */
    | ServerError
}
