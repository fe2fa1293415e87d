# jKanren.js: a verified model of a microKanren core

jKanren.js is a small relational-programming engine in the microKanren style.
It has five parts:

- **Terms.** Immutable cons cells (`cons`, `car`, `cdr`, `list`, `Null`), logic variables `[c]` (`kVar`, `isVar`, `equalVar`) and atoms.
- **Substitutions.** Association lists of bindings. `extS` extends them, `assp` searches them head-first and `walk` resolves a variable through them.
- **Unification.** `unify` is structural unification without an occurs check.
- **Goals and streams.** `equiv`, `call_fresh`, `disj` and `conj` build goals. A goal maps a state `cons(substitution, counter)` to a stream of states, which `mzero`/`unit`, `mplus` and `bind` combine.
- **Printing.** `writer` renders a term as Scheme text.

The model is one Dafny module per part:

- `Js`: the exceptions the engine raises, the `and`/`or` helpers and lodash's `foldr`.
- `Terms`, `Substitutions`, `Unification` and `Streams`.
- `Goals`: the four goal constructors and `emptyState`.
- `Example`: what the built-in goal `a_and_b` yields.
- `Writer`: the printer.

Every function of the engine is pure recursion or a closure over immutable cons structures, so it is modelled as a Dafny function with lemmas about it. Two functions loop, and those are methods:

- `or` scans its arguments with a `for` loop.
- `writer` appends to a string while a cursor walks the cdr chain of a list.

Each is proved against a specification: a quantified postcondition for `or`, the recursive definition `Render` for `writer`.

How JavaScript behaviour is modelled:

- **Exceptions are values.** `car`/`cdr` of a non-pair throws a `TypeError`. An exhausted call stack throws a `RangeError`.
- **Stack depth.** `unify` has no occurs check, so it can recurse forever (`x = (1 . x)`, then `x = x`). The model counts how many nested calls remain on the stack (`StackDepth` in `equiv`) and throws a `RangeError` when none do.
- **Suspensions.** A stream is `Null`, a cons of a state onto a stream, or a suspension (a JavaScript closure). A suspension is held as the outcome of calling it: the stream it returns, or what it throws.

## Model

| member | source | states |
|---|---|---|
| Js.FoldR | jKanren.js:115-117 | lodash's `foldr` combines the last element with the initial value first and then folds the rest from the right |
| Js.SomeFalse | jKanren.js:129-131 | the lodash test `_.some(args, x => x === false)` holds exactly when some argument is `false` |
| Js.And | jKanren.js:124-136 | `and()` is true; `and` is false exactly when some argument is false; otherwise it is the last argument |
| Js.AndOfBooleans | jKanren.js:124-136 | on two booleans `and` is their conjunction |
| Js.Or | jKanren.js:138-150 | `or` is false exactly when every argument is false (so `or()` is false); otherwise it returns an argument that is not false and that only false arguments precede |
| Terms.Cons | jKanren.js:92-96 | `cons(a, d)` is a pair whose `car` is `a` and whose `cdr` is `d` |
| Terms.Car | jKanren.js:98-104 | `car(x)` succeeds exactly on pairs and otherwise throws a TypeError |
| Terms.Cdr | jKanren.js:106-112 | `cdr(x)` succeeds exactly on pairs and otherwise throws a TypeError |
| Terms.List | jKanren.js:114-118 | `list()` is `Null`; `list(x1..xn)` is a pair holding `x1` |
| Terms.IsPair | jKanren.js:120-122 | `isPair(x)` holds exactly of the terms built by `cons` |
| Terms.KVar | jKanren.js:152-154 | `kVar(c)` is an array whose element 0 is the number `c` |
| Terms.IsVar | jKanren.js:156-158 | `isVar(x)` holds exactly of the terms built by `kVar` |
| Terms.EqualVar | jKanren.js:160-162 | on two variables `equalVar` holds exactly when they are the same variable |
| Terms.CarCdrOfCons | jKanren.js:92-112 | `car`/`cdr` take back the parts `cons` was built from; on any non-pair both throw a TypeError; `cons(car(p), cdr(p))` is `p` |
| Terms.ListElements | jKanren.js:114-118 | `list(x1..xn)` is the chain of cells holding exactly its arguments, in order, and ending in `Null`: its first cell holds `x1` and its cdr is `list(x2..xn)` |
| Terms.EqualVarMeaning | jKanren.js:156-162 | on two variables `equalVar` compares their numbers; it never equates a variable with a non-variable; it holds of any two atoms that are neither variables nor strings (`undefined === undefined`) |
| Substitutions.ExtS | jKanren.js:189-191 | `extS(x, v, s)` prepends exactly the binding of `x` to `v`: the new list's head is that binding and its rest is `s` |
| Substitutions.ExtSWellFormed | jKanren.js:189-191 | extending by a variable that is unbound, with a value that is not that variable and not a bound variable, keeps the substitution well formed: each binding's variable is unbound in the older bindings, and a variable it is bound to is a different one, also unbound in the older bindings |
| Substitutions.UnboundAfterExtS | jKanren.js:189-191 | binding one variable leaves every other unbound variable unbound |
| Substitutions.Assp | jKanren.js:164-174 | `assp(lss, p)` never returns `true`; it returns `false` exactly when no binding's variable satisfies `p`, and otherwise the head-most binding whose variable does |
| Substitutions.AsspFindsFirstBinding | jKanren.js:164-179 | with the predicate `walk` passes, `assp` returns the head-most binding of a bound variable, and `false` for an unbound variable or any non-variable |
| Substitutions.RankDecreases | jKanren.js:176-187 | in a well-formed substitution (as above), following a variable's binding strictly lowers the rank `walk` recurses on, so `walk` terminates |
| Substitutions.Walk | jKanren.js:176-187 | the result of `walk` is never a bound variable, and it is either the input or the value of some binding |
| Substitutions.WalkUnfold | jKanren.js:176-187 | `walk` returns a non-variable or an unbound variable unchanged, and otherwise continues from the value of the variable's head-most binding |
| Substitutions.WalkIdempotent | jKanren.js:176-187 | walking the result of a walk changes nothing |
| Substitutions.WalkInExtension | jKanren.js:176-191 | after bindings are prepended, a term walks to where it walked before, unless that was a variable; from such a variable the walk continues in the extended substitution |
| Substitutions.KeysDistinct | jKanren.js:189-191 | no variable is bound twice in a substitution built this way |
| Unification.Unify | jKanren.js:212-234 | `unify` with the car failure short-circuited: it never throws a TypeError, and any substitution it returns extends the input one |
| Unification.UnifyAsWritten | jKanren.js:212-234 | `unify` as written, with its eager `and` on line 229: any substitution it returns extends the input one |
| Unification.UnifyIsIntendedAsWritten | jKanren.js:227-229 | the two versions agree on every input, except that where the written one throws a TypeError the intended one returns false |
| Unification.CarFailureThrows | jKanren.js:227-229 | as written, two pairs whose cars fail to unify throw a TypeError; the intended version returns false |
| Unification.OneAgainstTwoThrows | jKanren.js:229 | as written, `unify(list(1), list(2), Null)` throws a TypeError; the intended version returns false |
| Unification.AtomsAsWritten | jKanren.js:231-233 | as written, too, two atoms unify exactly when they are identical, keeping the substitution |
| Unification.UnifyOnlyPrepends | jKanren.js:221-225 | a successful unification only prepends bindings, each for a variable that was unbound in the input, and it never binds a variable twice |
| Unification.UnifyUnifies | jKanren.js:212-234 | the substitution a successful unification returns is a unifier: under it the two terms walk to the same term, or to pairs whose parts agree in the same way, as deep as the stack reached |
| Unification.UnifyDepthMonotone | jKanren.js:212-234 | with more stack, an outcome that did not run out of stack stays the same |
| Unification.UnifySameVariable | jKanren.js:218-220 | two terms that walk to the same variable unify to the input substitution |
| Unification.UnifyBindsVariable | jKanren.js:221-223 | an unbound variable unifies with any term that does not walk to it, by prepending exactly the binding of the variable to that term's walk |
| Unification.UnifyAtoms | jKanren.js:227-233 | two atoms unify, keeping the substitution, exactly when they are `===`; a pair against an atom fails |
| Unification.UnifyWithItself | jKanren.js:212-234 | every term unifies with itself to the input substitution, whatever its variables are bound to, unless the stack runs out |
| Unification.UnifySelf | jKanren.js:212-232 | a term unifies with itself to the input substitution without running out of stack, given a stack deeper than the term and no variable in it walking to a non-variable |
| Unification.UnifySelfOverflows | jKanren.js:212-229 | some condition is needed: with `x` bound to `(1 . x)`, unifying `x` with `x` throws a RangeError whatever the stack depth |
| Streams.MZero | jKanren.js:210 | `mzero` yields no state and ends without an exception |
| Streams.Unit | jKanren.js:206-208 | `unit(s_c)` yields the one state `s_c` and ends without an exception |
| Streams.MPlus | jKanren.js:244-256 | when `mplus($1, $2)` ends without an exception, it yields as many states as `$1` and `$2` together |
| Streams.Bind | jKanren.js:258-270 | when `g` yields no state on any state of `$`, `bind($, g)` returns a stream with no state |
| Streams.MPlusSteps | jKanren.js:244-256 | `mplus(Null, $2)` is `$2`; a state at the head of `$1` stays at the head; a suspension resumes to `mplus` with the two streams swapped |
| Streams.BindSteps | jKanren.js:258-266 | `bind(Null, g)` is `mzero`; a suspension resumes to `bind` of what it forces to |
| Streams.MPlusZero | jKanren.js:244-256 | `mzero` is a right identity of `mplus` |
| Streams.BindUnit | jKanren.js:258-270 | binding the one-state stream `unit(h)` to `g` is `g(h)` |
| Streams.MPlusOfMature | jKanren.js:244-256 | with no suspension on the left, `mplus` concatenates the two streams' states and ends as the right stream does |
| Streams.MPlusAnswersFrom | jKanren.js:244-256 | every state of `mplus($1, $2)` comes from `$1` or `$2`, and it ends without an exception exactly when both do |
| Streams.MPlusPermutes | jKanren.js:244-256 | when neither stream throws, `mplus` yields exactly the states of both, each as often (a permutation of their concatenation) |
| Streams.BindAnswersFrom | jKanren.js:258-270 | every state of `bind($, g)` is yielded by `g` run on some state of `$` |
| Streams.BindCollects | jKanren.js:258-270 | when nothing throws, `bind($, g)` yields exactly the states `g` yields on each state of `$`, each as often |
| Goals.EmptyState | jKanren.js:284 | `emptyState` binds no variable and has counter 0 |
| Goals.Equiv | jKanren.js:193-204 | run with the intended `unify`, the goal `equiv(u, v)` never throws a TypeError, and when it returns, its stream holds at most one state and ends without an exception |
| Goals.Disj | jKanren.js:272-276 | `disj(g1, g2)` returns exactly when both goals return, and then returns `mplus` of their streams; otherwise it throws what `g1` throws, or, when `g1` returns, what `g2` throws |
| Goals.Conj | jKanren.js:278-282 | `conj(g1, g2)` is `bind` of `g1`'s stream with `g2` whenever `g1` returns, and throws what `g1` throws otherwise; so when it returns, `g1` returned |
| Goals.EquivOutcomes | jKanren.js:193-204 | `equiv` yields the one state with the unifier and the same counter, or `mzero` when unification fails, or throws a RangeError when the stack runs out |
| Goals.EquivBindsVariable | jKanren.js:193-204 | `equiv` of an unbound variable and a non-variable yields the one state with that binding prepended |
| Goals.CallFresh | jKanren.js:236-242 | `call_fresh(f)` on a state with counter `c` hands `f` the variable `[c]` and runs the goal it returns on the same substitution with counter `c + 1` |
| Goals.DisjReturns | jKanren.js:272-276 | when neither goal throws, `disj` is `mplus` of their two streams |
| Goals.DisjOfUnits | jKanren.js:272-276 | a `disj` of two goals that each yield one state yields the state of `g1`, then that of `g2` |
| Goals.DisjOfBindings | jKanren.js:272-276 | a `disj` of two `equiv`s binding the same unbound variable yields the first binding's state, then the second's |
| Goals.DisjCollects | jKanren.js:272-276 | when neither goal throws, `disj` yields the states of both goals, each as often |
| Goals.EquivMonotone | jKanren.js:193-204 | every state `equiv` yields extends the input state: same counter, substitution extended |
| Goals.CallFreshMonotone | jKanren.js:236-242 | `call_fresh` of a body whose goals only move the search forward moves it forward too |
| Goals.DisjMonotone | jKanren.js:272-276 | `disj` of goals that only move the search forward moves it forward too |
| Goals.ConjMonotone | jKanren.js:278-282 | `conj` of goals that only move the search forward moves it forward too |
| Example.AIsSevenAnswers | jKanren.js:286-287 | the first conjunct of `a_and_b` yields the one state binding its fresh variable to 7 |
| Example.BIsFiveOrSixAnswers | jKanren.js:288-290 | the second conjunct yields the state binding its fresh variable to 5, then the one binding it to 6 |
| Example.AAndBRunsSecond | jKanren.js:278-282 | `a_and_b` runs its second conjunct on the one state its first yields |
| Example.AAndBAnswers | jKanren.js:286-290 | from any state whose next two variables are unbound, `a_and_b` yields exactly two states, `a = 7, b = 5` and then `a = 7, b = 6`, with the counter advanced by two |
| Example.AAndBFromEmptyState | jKanren.js:284-290 | on `emptyState`, `a_and_b` yields variable 0 bound to 7 and variable 1 to 5, then to 6, both with counter 2 |
| Writer.Decimal | jKanren.js:52 | the text of a variable's number is a non-empty string of decimal digits with no leading zero |
| Writer.DecimalRoundTrip | jKanren.js:52 | reading those digits back gives the number |
| Writer.IntText | jKanren.js:55 | the text of an integer starts with a minus sign exactly when it is negative; the rest is a non-empty run of decimal digits with no leading zero (except `0` itself) that reads back to the absolute value |
| Writer.Write | jKanren.js:29-83 | `writer` returns `Render(inp)`: `()` for `Null`, `#t`/`#f`, `#(c)` for a variable, the atom's text, and a pair as its car and then the rest of its cdr chain in one pair of parentheses |
| Writer.RenderListOnto | jKanren.js:62-80 | a chain of cells prints as its elements separated by single spaces inside parentheses, with ` . tail` before the closing parenthesis when it ends in something other than `Null` or a pair |
| Writer.RenderList | jKanren.js:62-80 | `writer(list(x1..xn))` is `(x1 ... xn)`, each element printed by `writer` |

## Left out

- lodash (jKanren.js:3) is not called. `_.foldr`, `_.some`, `_.last`, `_.isArray` and `_.isFunction` are modelled by what they compute.
- `setCar`/`setCdr` (jKanren.js:13-19) are not modelled. They only run inside `cons` while a cell is built, so cons cells are immutable values (`Pair`) and no aliasing is modelled.
- Terms are `Null`, booleans, integral numbers, strings, variables and pairs. `undefined`, `null`, objects, functions and non-integral numbers as terms are not modelled.
- Writer.IntText: models `String(n)` for integers only. Fractions, the exponent form from 1e21 up and precision beyond 2^53 are not modelled.
- `writer` on states and streams is not modelled. In the model these are their own datatypes rather than cons cells.
- `quoteDict` (jKanren.js:34-38) is not modelled because it is never used. The commented-out `console.log` lines (jKanren.js:292-300) are not modelled.
- The message text of a TypeError is not modelled, only its kind.
- Unification.StackDepth: the stack limit is a stand-in constant, since the real one depends on the JavaScript engine. Stack use is counted for `unify` only. `walk` cannot recurse deeper than the substitution is long.
- Substitutions.Walk: requires a well-formed substitution: each binding's variable is unbound in the older bindings, and a variable it is bound to is a different one, also unbound in the older bindings. This is more than freedom from cycles (`[(1, [0]), (0, 5)]` has no cycle but is not well formed), and it is the shape every substitution built by `unify` from `Null` has. On a cyclic list the source's `walk` never returns.
- Unification.UnifySelf: requires that no variable of the term walk to a non-variable. It is the part of self-unification that rules out a RangeError; `Unification.UnifyWithItself` states the result for every term and substitution, up to a RangeError. The condition is sufficient, not necessary: `unify([0], [0], ((0 . 5)))` returns the substitution although `[0]` walks to 5. `Unification.UnifySelfOverflows` shows that without any condition the call can run out of stack.
- Unification.Unify: symmetry (`unify(u, v, s)` against `unify(v, u, s)`) is not proved. The two calls bind variables in different directions and return different lists, so the statement needs an equivalence of substitutions (same walks on every term) that the model does not define.
- Laziness and infinite streams are not modelled. A suspension holds its already-computed outcome, so streams are finite, and goals that never terminate are out of reach.
- The branch of `walk` for a `pr` of `true` (jKanren.js:181) is not modelled. `Substitutions.Assp` shows that `assp` never returns `true`, so that branch cannot run.
- The counter is an unbounded natural number. JavaScript numbers lose precision beyond 2^53.
- Goals.Equiv: runs the intended unification, `Unification.Unify`, so it never throws a TypeError. The source's `equiv` runs the `unify` written at jKanren.js:229 and throws one on `equiv(list(1), list(2))`, as the Findings row shows.
- Goals.EquivOutcomes: `equiv` uses the intended unification, `Unification.Unify`, not the one as written. The as-written behaviour is `Unification.UnifyAsWritten`, and `Unification.UnifyIsIntendedAsWritten` relates the two.

## Findings

| source | as written | input that shows it | evidently intended | confidence | as-written member | corrected member |
|---|---|---|---|---|---|---|
| jKanren.js:229 | `and(s, unify(cdr(u), cdr(v), s))` evaluates the cdr unification even when the car unification returned `false`. That call walks in the substitution `false`; `walk` evaluates `assp(false, …)`, which calls `car(false)` and throws a TypeError | `unify(list(1), list(2), Null)` | return `false` when the cars fail to unify | not executed | Unification.UnifyAsWritten, Unification.OneAgainstTwoThrows, Unification.CarFailureThrows | Unification.Unify, Unification.UnifyIsIntendedAsWritten |
