/**
 * The Lua expression evaluator seen from the breakpoint engine: an oracle
 * from script text to a failure or a list of returned values, and the two
 * decisions the engine builds on it (a boolean test and a stringification).
 */
module Evaluation {
  import opened Numerals

  /** The Lua values the engine distinguishes; every other kind is `Reference`. */
  datatype Value =
    | Nil
    | Boolean(b: bool)
    | Number(n: int)
    | Str(s: string)
    | Reference(kind: string)

  /** Outcome of running a chunk in the paused frame's scope. */
  datatype EvalResult = Failed | Returned(values: seq<Value>)

  /** Runs a chunk of script text in the current frame and reports its results. */
  type Evaluator = string -> EvalResult

  /**
   * What `lua_tolstring` yields for a value: strings as they are, numbers in
   * decimal, and nothing (an empty string of length zero) for other kinds.
   */
  function ToLString(v: Value): (s: string)
    ensures v.Str? ==> s == v.s
    ensures v.Number? ==> s == IntString(v.n)
    ensures !v.Str? && !v.Number? ==> s == ""
  {
    match v
    case Str(t) => t
    case Number(n) => IntString(n)
    case _ => ""
  }

  /**
   * `evaluate_isok`: the script is evaluated as `return <script>`; it counts
   * as satisfied only when evaluation succeeds and the first result is the
   * boolean `true`. Truthy non-boolean values do not count.
   */
  function IsOk(eval: Evaluator, script: string): (ok: bool)
    ensures ok <==> (eval("return " + script).Returned?
                     && |eval("return " + script).values| > 0
                     && eval("return " + script).values[0] == Boolean(true))
  {
    match eval("return " + script)
    case Failed => false
    case Returned(vs) => |vs| > 0 && vs[0].Boolean? && vs[0].b
  }

  /**
   * `evaluate_getstr`: the script is evaluated as `return tostring(<script>)`;
   * the first result converted with `lua_tolstring`, or the empty string when
   * evaluation fails or returns nothing.
   */
  function GetStr(eval: Evaluator, script: string): (s: string)
    ensures eval("return tostring(" + script + ")").Failed? ==> s == ""
    ensures eval("return tostring(" + script + ")") == Returned([]) ==> s == ""
    ensures eval("return tostring(" + script + ")").Returned?
            && |eval("return tostring(" + script + ")").values| > 0
            ==> s == ToLString(eval("return tostring(" + script + ")").values[0])
  {
    match eval("return tostring(" + script + ")")
    case Failed => ""
    case Returned(vs) => if |vs| <= 0 then "" else ToLString(vs[0])
  }

  /** The substitution used for each `{...}` span of a log template. */
  function Stringify(eval: Evaluator): string -> string {
    e => GetStr(eval, e)
  }
}
