/** Terms: cons cells, logic variables and atoms, with the primitive
    operations on them (jKanren.js lines 5-27 and 85-162). */
module Terms {
  import opened Js

  /** A term. `Null` is the distinguished empty list, `Var(c)` the one-element
      array `[c]`, `Pair` a cons cell; every other JS value is an atom. Numbers
      are the integral JS numbers. */
  datatype Term =
    | Null
    | Bool(b: bool)
    | Num(n: int)
    | Str(s: string)
    | Var(id: nat)
    | Pair(car: Term, cdr: Term)

  /** The number of constructors in a term; a measure for recursion over it. */
  function Size(t: Term): (n: nat)
    ensures n >= 1
    ensures t.Pair? ==> n > Size(t.car) && n > Size(t.cdr)
  {
    match t
    case Pair(a, d) => 1 + Size(a) + Size(d)
    case _ => 1
  }

  /** `cons(a, d)`: a new cell with car `a` and cdr `d`. */
  function Cons(a: Term, d: Term): (r: Term)
    ensures IsPair(r) && Car(r) == Ok(a) && Cdr(r) == Ok(d)
  {
    Pair(a, d)
  }

  /** `car(pair)`: throws a TypeError on anything that is not a pair. */
  function Car(t: Term): (r: Result<Term>)
    ensures r.Ok? <==> IsPair(t)
    ensures r.Threw? ==> r.error == TypeError
  {
    if t.Pair? then Ok(t.car) else Threw(TypeError)
  }

  /** `cdr(pair)`: throws a TypeError on anything that is not a pair. */
  function Cdr(t: Term): (r: Result<Term>)
    ensures r.Ok? <==> IsPair(t)
    ensures r.Threw? ==> r.error == TypeError
  {
    if t.Pair? then Ok(t.cdr) else Threw(TypeError)
  }

  /** `car` and `cdr` take apart what `cons` builds, and fail on everything else. */
  lemma CarCdrOfCons(a: Term, d: Term, t: Term)
    ensures Car(Cons(a, d)) == Ok(a) && Cdr(Cons(a, d)) == Ok(d)
    ensures !IsPair(t) ==> Car(t) == Threw(TypeError) && Cdr(t) == Threw(TypeError)
    ensures IsPair(t) ==> Cons(Car(t).value, Cdr(t).value) == t
  {
  }

  /** `isPair(x)`: `x instanceof ConsCell`, i.e. `x` was built by `cons`. */
  function IsPair(t: Term): (r: bool)
    ensures r <==> exists a, d :: t == Pair(a, d)
  {
    assert t.Pair? ==> t == Pair(t.car, t.cdr);
    t.Pair?
  }

  /** `list(x1, ..., xn)`: a right fold of `cons` over the arguments onto `Null`. */
  function List(xs: seq<Term>): (r: Term)
    ensures |xs| == 0 ==> r == Null
    ensures |xs| > 0 ==> r.Pair? && r.car == xs[0]
  {
    FoldR(xs, (ls: Term, x: Term) => Cons(x, ls), Null)
  }

  /** The chain of cells holding the elements `xs`, in order, whose last cdr
      is `tail`; with `tail == Null` it is a proper list. */
  function ListOnto(xs: seq<Term>, tail: Term): Term
  {
    if |xs| == 0 then tail else Pair(xs[0], ListOnto(xs[1..], tail))
  }

  /** `list` builds exactly the proper list of its arguments, in order. */
  lemma {:induction false} ListElements(xs: seq<Term>)
    ensures List(xs) == ListOnto(xs, Null)
    ensures |xs| > 0 ==> List(xs) == Pair(xs[0], List(xs[1..]))
  {
    if |xs| > 0 {
      ListCons(xs);
      ListElements(xs[1..]);
    }
  }

  lemma ListCons(xs: seq<Term>)
    requires |xs| > 0
    ensures List(xs) == Pair(xs[0], List(xs[1..]))
  {
  }

  /** `kVar(c)`: the variable `[c]`. */
  function KVar(c: nat): (r: Term)
    ensures ElementZero(r) == Number(c)
  {
    Var(c)
  }

  /** `isVar(x)`: lodash `_.isArray`; only variables are arrays. */
  function IsVar(t: Term): (r: bool)
    ensures r <==> exists c :: t == KVar(c)
  {
    assert t.Var? ==> t == KVar(t.id);
    t.Var?
  }

  /** What `x[0]` evaluates to in JavaScript: the number inside a variable,
      the first character of a non-empty string, otherwise `undefined`. */
  datatype Index0 = Undefined | Number(n: int) | Character(c: char)

  function ElementZero(t: Term): Index0
  {
    match t
    case Var(c) => Number(c)
    case Str(s) => if |s| > 0 then Character(s[0]) else Undefined
    case _ => Undefined
  }

  /** `equalVar(x1, x2)`: `x1[0] === x2[0]`. */
  function EqualVar(x1: Term, x2: Term): (r: bool)
    ensures IsVar(x1) && IsVar(x2) ==> (r <==> x1 == x2)
  {
    ElementZero(x1) == ElementZero(x2)
  }

  /** `equalVar` identifies variables by their number, never confuses a
      variable with a non-variable, and (since `undefined === undefined`)
      holds of any two terms that are neither variables nor strings. */
  lemma EqualVarMeaning(x1: Term, x2: Term)
    ensures IsVar(x1) && IsVar(x2) ==> (EqualVar(x1, x2) <==> x1.id == x2.id)
    ensures IsVar(x1) != IsVar(x2) ==> !EqualVar(x1, x2)
    ensures !IsVar(x1) && !IsVar(x2) && !x1.Str? && !x2.Str? ==> EqualVar(x1, x2)
  {
  }
}
