/** JavaScript values and helpers that the engine leans on: the exceptions it
    can raise, the falsity test of its `and`/`or` helpers, and lodash's foldr. */
module Js {

  /** The two exceptions the engine can raise: `car`/`cdr` of a non-pair
      (TypeError), and an exhausted call stack (RangeError). */
  datatype JsError = TypeError | RangeError

  datatype Option<+T> = None | Some(value: T)

  /** A computation that either returns a value or throws. */
  datatype Result<+T> = Ok(value: T) | Threw(error: JsError)

  /** A value passed to `and`/`or`: the booleans, or some other value.
      `and` and `or` only ask whether a value is `false` (`x === false`). */
  datatype JsValue<+T> = JFalse | JTrue | JOther(v: T)

  function FromBool<T>(b: bool): (r: JsValue<T>)
    ensures r != JFalse <==> b
  {
    if b then JTrue else JFalse
  }

  /** lodash `_.some(args, x => x === false)`. */
  function SomeFalse<T(==)>(args: seq<JsValue<T>>): (r: bool)
    ensures r <==> exists i :: 0 <= i < |args| && args[i] == JFalse
  {
    if |args| == 0 then false
    else args[0] == JFalse || SomeFalse(args[1..])
  }

  /** `and(...)`: true for no arguments, false when some argument is false,
      otherwise the last argument. Every argument is evaluated by the caller
      before `and` runs. */
  function And<T(==)>(args: seq<JsValue<T>>): (r: JsValue<T>)
    ensures |args| == 0 ==> r == JTrue
    ensures r == JFalse <==> JFalse in args
    ensures 0 < |args| && JFalse !in args ==> r == args[|args| - 1]
  {
    if |args| == 0 then JTrue
    else if SomeFalse(args) then JFalse
    else args[|args| - 1]
  }

  /** On booleans, `and` of two arguments is their conjunction. */
  lemma AndOfBooleans<T>(a: bool, b: bool)
    ensures And<T>([FromBool(a), FromBool(b)]) == FromBool(a && b)
  {
  }

  /** `or(...)`: the first argument that is not false, or false. */
  method Or<T(==)>(args: seq<JsValue<T>>) returns (r: JsValue<T>)
    ensures r == JFalse <==> forall i :: 0 <= i < |args| ==> args[i] == JFalse
    ensures r != JFalse ==>
      exists k :: 0 <= k < |args| && r == args[k] && forall j :: 0 <= j < k ==> args[j] == JFalse
  {
    if |args| == 0 {
      return JFalse;
    }
    for i := 0 to |args|
      invariant forall j :: 0 <= j < i ==> args[j] == JFalse
    {
      if args[i] != JFalse {
        return args[i];
      }
    }
    return JFalse;
  }

  /** lodash `_.foldr(xs, f, init)`: folds from the right end,
      `f(f(f(init, xs[n-1]), xs[n-2]) ..., xs[0])`. The last element is the
      first one combined with `init`. */
  function FoldR<A, B>(xs: seq<A>, f: (B, A) -> B, init: B): (r: B)
    ensures |xs| > 0 ==> r == FoldR(xs[..|xs| - 1], f, f(init, xs[|xs| - 1]))
  {
    if |xs| == 0 then init
    else
      assert |xs| > 1 ==> xs[1..][..|xs| - 2] == xs[..|xs| - 1][1..];
      f(FoldR(xs[1..], f, init), xs[0])
  }
}
