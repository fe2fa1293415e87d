/** Goals: `equiv`, `call_fresh`, `disj` and `conj`, the empty state and the
    example goal `a_and_b` (jKanren.js lines 193-204, 236-242 and 272-290). */
module Goals {
  import opened Js
  import opened Terms
  import opened Substitutions
  import opened Unification
  import opened Streams

  /** `emptyState`: no bindings, and the first fresh variable is numbered 0. */
  function EmptyState(): (r: State)
    ensures r.counter == 0 && forall x :: !Bound(x, r.sub)
  {
    State([], 0)
  }

  /** `equiv(u, v)` (`==`): the goal that unifies `u` and `v` in the state's
      substitution. */
  function Equiv(u: Term, v: Term): (g: Goal)
    ensures forall st :: g(st) != Threw(TypeError)
    ensures forall st :: g(st).Ok? ==> |Answers(g(st).value)| <= 1 && Ending(g(st).value) == None
  {
    (st: State) => RunEquiv(u, v, st)
  }

  /** The closure `equiv` returns, applied to a state. The unification is the
      one the source intends (see `Unify`). */
  function RunEquiv(u: Term, v: Term, st: State): Result<Stream>
  {
    match Unify(u, v, st.sub, StackDepth)
    case Sub(s') => Ok(Unit(State(s', st.counter)))
    case Fail => Ok(MZero())
    case Thrown(e) => Threw(e)
  }

  /** `call_fresh(f)`: the goal that hands `f` the variable numbered by the
      state's counter and runs the goal it returns with the counter advanced
      by one. */
  function CallFresh(f: Term -> Goal): (g: Goal)
    ensures forall st :: g(st) == f(Var(st.counter))(State(st.sub, st.counter + 1))
  {
    (st: State) => RunCallFresh(f, st)
  }

  function RunCallFresh(f: Term -> Goal, st: State): Result<Stream>
  {
    f(KVar(st.counter))(State(st.sub, st.counter + 1))
  }

  /** `disj(g1, g2)`: the goal that runs both goals on the same state, `g1`
      first, and interleaves their streams. */
  function Disj(g1: Goal, g2: Goal): (g: Goal)
    ensures forall st :: g(st).Ok? <==> g1(st).Ok? && g2(st).Ok?
    ensures forall st :: g(st).Ok? ==> g(st).value == MPlus(g1(st).value, g2(st).value)
    ensures forall st :: g1(st).Threw? ==> g(st) == Threw(g1(st).error)
    ensures forall st :: g1(st).Ok? && g2(st).Threw? ==> g(st) == Threw(g2(st).error)
  {
    (st: State) => RunDisj(g1, g2, st)
  }

  function RunDisj(g1: Goal, g2: Goal, st: State): Result<Stream>
  {
    match g1(st)
    case Threw(e) => Threw(e)
    case Ok(a) =>
      match g2(st)
      case Threw(e) => Threw(e)
      case Ok(b) => Ok(MPlus(a, b))
  }

  /** `conj(g1, g2)`: the goal that runs `g2` on every state `g1` yields. */
  function Conj(g1: Goal, g2: Goal): (g: Goal)
    ensures forall st :: g(st).Ok? ==> g1(st).Ok? && g(st) == Bind(g1(st).value, g2)
    ensures forall st :: g1(st).Ok? ==> g(st) == Bind(g1(st).value, g2)
    ensures forall st :: g1(st).Threw? ==> g(st) == Threw(g1(st).error)
  {
    (st: State) => RunConj(g1, g2, st)
  }

  function RunConj(g1: Goal, g2: Goal, st: State): Result<Stream>
  {
    match g1(st)
    case Threw(e) => Threw(e)
    case Ok(a) => Bind(a, g2)
  }

  /** `equiv` yields the one state with the unifier and the same counter when
      unification succeeds, no state when it fails, and otherwise throws. */
  lemma EquivOutcomes(u: Term, v: Term, st: State)
    ensures var r := Unify(u, v, st.sub, StackDepth);
      && (r.Sub? ==> Equiv(u, v)(st) == Ok(Mature(State(r.s, st.counter), Empty)))
      && (r.Fail? ==> Equiv(u, v)(st) == Ok(Empty))
      && (r.Thrown? ==> Equiv(u, v)(st) == Threw(RangeError))
  {
    var r := Unify(u, v, st.sub, StackDepth);
    if r.Thrown? {
      assert r.e != TypeError;
      assert Equiv(u, v)(st) == Threw(r.e);
    }
  }

  /** When both goals return a stream, `disj` interleaves the two. */
  lemma DisjReturns(g1: Goal, g2: Goal, st: State)
    requires g1(st).Ok? && g2(st).Ok?
    ensures Disj(g1, g2)(st) == Ok(MPlus(g1(st).value, g2(st).value))
  {
  }

  /** When each goal yields one state, `disj` yields the state of `g1` and
      then that of `g2`. */
  lemma DisjOfUnits(g1: Goal, g2: Goal, st: State, a: State, b: State)
    requires g1(st) == Ok(Mature(a, Empty)) && g2(st) == Ok(Mature(b, Empty))
    ensures Disj(g1, g2)(st) == Ok(Mature(a, Mature(b, Empty)))
  {
    DisjReturns(g1, g2, st);
    MPlusSteps(Mature(b, Empty), a, Empty);
  }

  /** A later state of the search: its substitution extends the earlier one
      and its counter has not gone back. */
  predicate Extends(st: State, st': State)
  {
    IsSuffix(st.sub, st'.sub) && st.counter <= st'.counter
  }

  /** A goal's outcome on `st` yields only states that extend `st`. */
  predicate Yields(st: State, r: Result<Stream>)
  {
    r.Ok? ==> forall x :: x in Answers(r.value) ==> Extends(st, x)
  }

  /** A goal that only ever moves the search forward. */
  ghost predicate Monotone(g: Goal)
  {
    forall st :: Yields(st, g(st))
  }

  lemma ExtendsTransitive(a: State, b: State, c: State)
    requires Extends(a, b) && Extends(b, c)
    ensures Extends(a, c)
  {
    SuffixTransitive(a.sub, b.sub, c.sub);
  }

  /** `equiv` only prepends bindings and keeps the counter. */
  lemma EquivMonotone(u: Term, v: Term)
    ensures Monotone(Equiv(u, v))
  {
    forall st ensures Yields(st, Equiv(u, v)(st)) {
      EquivOutcomes(u, v, st);
    }
  }

  /** `call_fresh` moves the search forward when every goal its body can
      return does. */
  lemma CallFreshMonotone(f: Term -> Goal)
    requires forall x :: Monotone(f(x))
    ensures Monotone(CallFresh(f))
  {
    forall st ensures Yields(st, CallFresh(f)(st)) {
      var st' := State(st.sub, st.counter + 1);
      assert Yields(st', f(Var(st.counter))(st'));
      var r := CallFresh(f)(st);
      if r.Ok? {
        forall x | x in Answers(r.value) ensures Extends(st, x) {
          ExtendsTransitive(st, st', x);
        }
      }
    }
  }

  /** `disj` moves the search forward when both goals do. */
  lemma DisjMonotone(g1: Goal, g2: Goal)
    requires Monotone(g1) && Monotone(g2)
    ensures Monotone(Disj(g1, g2))
  {
    forall st ensures Yields(st, Disj(g1, g2)(st)) {
      assert Yields(st, g1(st)) && Yields(st, g2(st));
      if g1(st).Ok? && g2(st).Ok? {
        MPlusAnswersFrom(g1(st).value, g2(st).value);
      }
    }
  }

  /** `conj` moves the search forward when both goals do. */
  lemma ConjMonotone(g1: Goal, g2: Goal)
    requires Monotone(g1) && Monotone(g2)
    ensures Monotone(Conj(g1, g2))
  {
    forall st ensures Yields(st, Conj(g1, g2)(st)) {
      var r := Conj(g1, g2)(st);
      if r.Ok? {
        assert Yields(st, g1(st));
        var a := g1(st).value;
        forall x | x in Answers(r.value) ensures Extends(st, x) {
          BindAnswersFrom(a, g2, x);
          var h :| h in Answers(a) && g2(h).Ok? && x in Answers(g2(h).value);
          assert Yields(h, g2(h));
          ExtendsTransitive(st, h, x);
        }
      }
    }
  }

  /** When neither goal throws, `disj` yields the states of both goals,
      each as often as they do. */
  lemma DisjCollects(g1: Goal, g2: Goal, st: State)
    requires g1(st).Ok? && g2(st).Ok?
    requires Ending(g1(st).value) == None && Ending(g2(st).value) == None
    ensures Disj(g1, g2)(st).Ok?
    ensures multiset(Answers(Disj(g1, g2)(st).value))
         == multiset(Answers(g1(st).value)) + multiset(Answers(g2(st).value))
  {
    MPlusPermutes(g1(st).value, g2(st).value);
  }

  /** `equiv` of an unbound variable and a term that is not a variable
      yields the one state with that binding prepended. */
  lemma EquivBindsVariable(x: nat, t: Term, st: State)
    requires !Bound(x, st.sub) && !t.Var?
    ensures WellFormed(ExtS(x, t, st.sub))
    ensures Equiv(Var(x), t)(st) == Ok(Mature(State(ExtS(x, t, st.sub), st.counter), Empty))
  {
    ExtSWellFormed(x, t, st.sub);
    WalkUnfold(t, st.sub);
    UnifyBindsVariable(x, t, st.sub, StackDepth);
    EquivOutcomes(Var(x), t, st);
  }

  /** A `disj` of two bindings of the same unbound variable to non-variables
      yields the state with the first binding, then the one with the second. */
  lemma DisjOfBindings(x: nat, t1: Term, t2: Term, st: State)
    requires !Bound(x, st.sub) && !t1.Var? && !t2.Var?
    ensures WellFormed(ExtS(x, t1, st.sub)) && WellFormed(ExtS(x, t2, st.sub))
    ensures Disj(Equiv(Var(x), t1), Equiv(Var(x), t2))(st)
         == Ok(Mature(State(ExtS(x, t1, st.sub), st.counter),
                      Mature(State(ExtS(x, t2, st.sub), st.counter), Empty)))
  {
    EquivBindsVariable(x, t1, st);
    EquivBindsVariable(x, t2, st);
    DisjOfUnits(Equiv(Var(x), t1), Equiv(Var(x), t2), st,
      State(ExtS(x, t1, st.sub), st.counter), State(ExtS(x, t2, st.sub), st.counter));
  }

  /** The first conjunct of `a_and_b`: a fresh `a` that is 7. */
  function AIsSeven(): Goal
  {
    CallFresh((a: Term) => Equiv(a, Num(7)))
  }

  /** The second conjunct of `a_and_b`: a fresh `b` that is 5 or 6. */
  function BIsFiveOrSix(): Goal
  {
    CallFresh((b: Term) => Disj(Equiv(b, Num(5)), Equiv(b, Num(6))))
  }

  /** `a_and_b`: `a` is 7 and `b` is 5 or 6. */
  function AAndB(): Goal
  {
    Conj(AIsSeven(), BIsFiveOrSix())
  }
}
