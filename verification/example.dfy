/** What the example goal `a_and_b` (jKanren.js lines 286-290) yields. */
module Example {
  import opened Js
  import opened Terms
  import opened Substitutions
  import opened Unification
  import opened Streams
  import opened Goals

  /** On any state whose next fresh variable is unbound, the first conjunct
      yields one state, with that variable bound to 7. */
  lemma AIsSevenAnswers(st: State)
    requires !Bound(st.counter, st.sub)
    ensures WellFormed(ExtS(st.counter, Num(7), st.sub))
    ensures AIsSeven()(st) == Ok(Mature(State(ExtS(st.counter, Num(7), st.sub), st.counter + 1), Empty))
  {
    EquivBindsVariable(st.counter, Num(7), State(st.sub, st.counter + 1));
    AIsSevenUnfolds(st);
  }

  /** The first conjunct runs `equiv` on the next fresh variable. */
  lemma AIsSevenUnfolds(st: State)
    ensures AIsSeven()(st) == Equiv(Var(st.counter), Num(7))(State(st.sub, st.counter + 1))
  {
  }

  /** The second conjunct runs `disj` on the next fresh variable. */
  lemma BIsFiveOrSixUnfolds(st: State)
    ensures BIsFiveOrSix()(st)
         == Disj(Equiv(Var(st.counter), Num(5)), Equiv(Var(st.counter), Num(6)))(State(st.sub, st.counter + 1))
  {
  }

  /** On any state whose next fresh variable is unbound, the second conjunct
      yields two states with that variable bound first to 5, then to 6. */
  lemma BIsFiveOrSixAnswers(st: State)
    requires !Bound(st.counter, st.sub)
    ensures WellFormed(ExtS(st.counter, Num(5), st.sub)) && WellFormed(ExtS(st.counter, Num(6), st.sub))
    ensures BIsFiveOrSix()(st) ==
      Ok(Mature(State(ExtS(st.counter, Num(5), st.sub), st.counter + 1),
         Mature(State(ExtS(st.counter, Num(6), st.sub), st.counter + 1), Empty)))
  {
    DisjOfBindings(st.counter, Num(5), Num(6), State(st.sub, st.counter + 1));
    BIsFiveOrSixUnfolds(st);
  }

  /** `a_and_b` runs its second conjunct on the one state the first conjunct
      yields. */
  lemma AAndBRunsSecond(st: State)
    requires !Bound(st.counter, st.sub)
    ensures WellFormed(ExtS(st.counter, Num(7), st.sub))
    ensures AAndB()(st) == BIsFiveOrSix()(State(ExtS(st.counter, Num(7), st.sub), st.counter + 1))
  {
    AIsSevenAnswers(st);
    var st1 := State(ExtS(st.counter, Num(7), st.sub), st.counter + 1);
    assert AAndB()(st) == Bind(Unit(st1), BIsFiveOrSix());
    BindUnit(st1, BIsFiveOrSix());
  }

  /** From any state whose next two fresh variables are unbound (the empty
      state among them), `a_and_b` yields exactly two states, both with the
      counter advanced by two and `a` (the first fresh variable) bound to 7:
      first with `b` (the second) bound to 5, then with `b` bound to 6. */
  lemma AAndBAnswers(st: State)
    requires !Bound(st.counter, st.sub) && !Bound(st.counter + 1, st.sub)
    ensures WellFormed(ExtS(st.counter, Num(7), st.sub))
    ensures var s1 := ExtS(st.counter, Num(7), st.sub);
      WellFormed(ExtS(st.counter + 1, Num(5), s1)) && WellFormed(ExtS(st.counter + 1, Num(6), s1))
    ensures var s1 := ExtS(st.counter, Num(7), st.sub);
      AAndB()(st) == Ok(Mature(State(ExtS(st.counter + 1, Num(5), s1), st.counter + 2),
                          Mature(State(ExtS(st.counter + 1, Num(6), s1), st.counter + 2), Empty)))
  {
    AAndBRunsSecond(st);
    UnboundAfterExtS(st.counter, Num(7), st.sub, st.counter + 1);
    BIsFiveOrSixAnswers(State(ExtS(st.counter, Num(7), st.sub), st.counter + 1));
  }

  /** Run on `emptyState` (no bindings, counter 0), `a_and_b` yields
      `a = 7, b = 5` and then `a = 7, b = 6`, where `a` and `b` are the
      variables 0 and 1, and both states have the counter at 2. */
  lemma AAndBFromEmptyState()
    ensures WellFormed(ExtS(1, Num(5), ExtS(0, Num(7), []))) && WellFormed(ExtS(1, Num(6), ExtS(0, Num(7), [])))
    ensures AAndB()(EmptyState()) ==
      Ok(Mature(State(ExtS(1, Num(5), ExtS(0, Num(7), [])), 2),
         Mature(State(ExtS(1, Num(6), ExtS(0, Num(7), [])), 2), Empty)))
  {
    AAndBOnEmpty(EmptyState());
  }

  /** `a_and_b` on a state with no bindings and counter 0. */
  lemma AAndBOnEmpty(st: State)
    requires st.sub == [] && st.counter == 0
    ensures WellFormed(ExtS(1, Num(5), ExtS(0, Num(7), st.sub)))
    ensures WellFormed(ExtS(1, Num(6), ExtS(0, Num(7), st.sub)))
    ensures AAndB()(st) ==
      Ok(Mature(State(ExtS(1, Num(5), ExtS(0, Num(7), st.sub)), 2),
         Mature(State(ExtS(1, Num(6), ExtS(0, Num(7), st.sub)), 2), Empty)))
  {
    AAndBAnswers(st);
    assert st.counter + 1 == 1 && st.counter + 2 == 2;
  }
}
