/** Streams of search states and their two combinators, `mplus` and `bind`
    (jKanren.js lines 206-210 and 244-270). */
module Streams {
  import opened Js
  import opened Substitutions

  /** A search state `cons(s, c)`: a substitution and the number the next
      fresh variable gets. */
  datatype State = State(sub: Substitution, counter: nat)

  /** A stream of states: `Null` (no states), a cons of a state onto a
      stream, or a suspension (a JavaScript closure). A suspension is held as
      the outcome of calling it: the stream it returns or what it throws. */
  datatype Stream =
    | Empty
    | Mature(head: State, tail: Stream)
    | Immature(forced: Result<Stream>)

  /** A goal maps a state to a stream of states, or throws. */
  type Goal = State -> Result<Stream>

  /** `mzero`: the stream with no states. */
  function MZero(): (r: Stream)
    ensures Answers(r) == [] && Ending(r) == None
  {
    Empty
  }

  /** `unit(s_c)`: the stream with the one state `s_c`. */
  function Unit(st: State): (r: Stream)
    ensures Answers(r) == [st] && Ending(r) == None
  {
    Mature(st, MZero())
  }

  function StreamSize(st: Stream): nat
  {
    match st
    case Empty => 0
    case Mature(_, t) => 1 + StreamSize(t)
    case Immature(Ok(t)) => 1 + StreamSize(t)
    case Immature(Threw(_)) => 1
  }

  /** The states a stream yields when it is forced to the end, in order. */
  function Answers(st: Stream): seq<State>
  {
    match st
    case Empty => []
    case Mature(h, t) => [h] + Answers(t)
    case Immature(Ok(t)) => Answers(t)
    case Immature(Threw(_)) => []
  }

  /** How forcing a stream to the end stops: `None` when it reaches `Null`,
      or the exception a suspension throws. */
  function Ending(st: Stream): Option<JsError>
  {
    match st
    case Empty => None
    case Mature(_, t) => Ending(t)
    case Immature(Ok(t)) => Ending(t)
    case Immature(Threw(e)) => Some(e)
  }

  /** A stream with no suspension in it: a plain cons list of states. */
  predicate AllMature(st: Stream)
  {
    match st
    case Empty => true
    case Mature(_, t) => AllMature(t)
    case Immature(_) => false
  }

  /** `mplus($1, $2)`: interleaves two streams. The states of `$1` come
      first, and at a suspension of `$1` the two streams swap places, so that
      `$2` is advanced before `$1` resumes. */
  function MPlus(s1: Stream, s2: Stream): (r: Stream)
    ensures Ending(r) == None ==> |Answers(r)| == |Answers(s1)| + |Answers(s2)|
    decreases StreamSize(s1) + StreamSize(s2)
  {
    match s1
    case Empty => s2
    case Immature(r) =>
      Immature(match r case Ok(t) => Ok(MPlus(s2, t)) case Threw(e) => Threw(e))
    case Mature(h, t) => Mature(h, MPlus(t, s2))
  }

  /** `bind($, g)`: runs `g` on every state of `$` and merges the results.
      The goal is applied to the head before the tail is bound, and a
      suspension of `$` becomes a suspension of the result. */
  function Bind(st: Stream, g: Goal): (r: Result<Stream>)
    ensures (forall h :: h in Answers(st) ==> g(h) == Ok(MZero())) ==> r.Ok? && Answers(r.value) == []
    decreases StreamSize(st)
  {
    match st
    case Empty => Ok(MZero())
    case Immature(r) =>
      Ok(Immature(match r case Ok(t) => Bind(t, g) case Threw(e) => Threw(e)))
    case Mature(h, t) =>
      match g(h)
      case Threw(e) => Threw(e)
      case Ok(first) =>
        match Bind(t, g)
        case Threw(e) => Threw(e)
        case Ok(rest) => Ok(MPlus(first, rest))
  }

  /** The cases of `mplus` one step at a time: an empty left stream gives
      the right one, a state at the head stays at the head, and a suspension
      resumes to `mplus` with the two streams swapped. */
  lemma MPlusSteps(s2: Stream, h: State, t: Stream)
    ensures MPlus(Empty, s2) == s2
    ensures MPlus(Mature(h, t), s2) == Mature(h, MPlus(t, s2))
    ensures MPlus(Immature(Ok(t)), s2) == Immature(Ok(MPlus(s2, t)))
  {
  }

  /** The cases of `bind` one step at a time: nothing to bind gives `mzero`,
      and a suspension resumes to `bind` of what it forces to. */
  lemma BindSteps(t: Stream, g: Goal)
    ensures Bind(Empty, g) == Ok(MZero())
    ensures Bind(Immature(Ok(t)), g) == Ok(Immature(Bind(t, g)))
  {
    assert Immature(Ok(t)).forced == Ok(t);
  }

  /** `mzero` is a right identity of `mplus`, whatever the left stream holds. */
  lemma {:induction false} MPlusZero(st: Stream)
    ensures MPlus(st, MZero()) == st
    decreases StreamSize(st)
  {
    match st
    case Empty =>
    case Mature(h, t) => MPlusZero(t);
    case Immature(r) =>
  }

  /** Binding the one-state stream `unit(h)` runs the goal on `h` alone. */
  lemma BindUnit(h: State, g: Goal)
    ensures Bind(Unit(h), g) == g(h)
  {
    if g(h).Ok? {
      MPlusZero(g(h).value);
    }
  }

  /** With no suspension on the left, `mplus` is concatenation. */
  lemma {:induction false} MPlusOfMature(s1: Stream, s2: Stream)
    requires AllMature(s1)
    ensures Answers(MPlus(s1, s2)) == Answers(s1) + Answers(s2)
    ensures Ending(MPlus(s1, s2)) == Ending(s2)
    decreases StreamSize(s1)
  {
    if s1.Mature? {
      MPlusOfMature(s1.tail, s2);
    }
  }

  /** Every state of `mplus(s1, s2)` is a state of `s1` or of `s2`, and it
      stops with an exception exactly when one of them does. */
  lemma {:induction false} MPlusAnswersFrom(s1: Stream, s2: Stream)
    ensures forall x :: x in Answers(MPlus(s1, s2)) ==> x in Answers(s1) || x in Answers(s2)
    ensures Ending(MPlus(s1, s2)) == None <==> Ending(s1) == None && Ending(s2) == None
    decreases StreamSize(s1) + StreamSize(s2)
  {
    match s1
    case Empty =>
    case Mature(h, t) => MPlusAnswersFrom(t, s2);
    case Immature(Ok(t)) => MPlusAnswersFrom(s2, t);
    case Immature(Threw(_)) =>
  }

  /** When neither stream throws, `mplus` loses and invents no state: its
      states are those of both streams, each as often. */
  lemma {:induction false} MPlusPermutes(s1: Stream, s2: Stream)
    requires Ending(s1) == None && Ending(s2) == None
    ensures multiset(Answers(MPlus(s1, s2))) == multiset(Answers(s1)) + multiset(Answers(s2))
    decreases StreamSize(s1) + StreamSize(s2)
  {
    if s1.Mature? {
      MPlusPermutes(s1.tail, s2);
      HeadPermutes(s1.head, s1.tail, s2);
    } else if s1.Immature? {
      MPlusPermutes(s2, s1.forced.value);
    }
  }

  lemma HeadPermutes(h: State, t: Stream, s2: Stream)
    requires multiset(Answers(MPlus(t, s2))) == multiset(Answers(t)) + multiset(Answers(s2))
    ensures multiset(Answers(MPlus(Mature(h, t), s2)))
         == multiset(Answers(Mature(h, t))) + multiset(Answers(s2))
  {
    assert Answers(MPlus(Mature(h, t), s2)) == [h] + Answers(MPlus(t, s2));
  }

  /** The states that running `g` on each of `hs` yields, all together. */
  function Collect(hs: seq<State>, g: Goal): multiset<State>
    requires forall h :: h in hs ==> g(h).Ok?
  {
    if |hs| == 0 then multiset{}
    else multiset(Answers(g(hs[0]).value)) + Collect(hs[1..], g)
  }

  /** Every state of `bind(st, g)` comes from running `g` on a state of `st`. */
  lemma {:induction false} BindAnswersFrom(st: Stream, g: Goal, x: State)
    requires Bind(st, g).Ok? && x in Answers(Bind(st, g).value)
    ensures exists h :: h in Answers(st) && g(h).Ok? && x in Answers(g(h).value)
    decreases StreamSize(st)
  {
    match st
    case Immature(Ok(t)) =>
      BindAnswersFrom(t, g, x);
    case Mature(h, t) =>
      var first, rest := g(h).value, Bind(t, g).value;
      MPlusAnswersFrom(first, rest);
      if x !in Answers(first) {
        BindAnswersFrom(t, g, x);
      }
  }

  /** When nothing throws, `bind` yields exactly the states that running `g`
      on each state of `st` yields, each as often. */
  lemma {:induction false} BindCollects(st: Stream, g: Goal)
    requires Ending(st) == None
    requires forall h :: h in Answers(st) ==> g(h).Ok? && Ending(g(h).value) == None
    ensures Bind(st, g).Ok? && Ending(Bind(st, g).value) == None
    ensures multiset(Answers(Bind(st, g).value)) == Collect(Answers(st), g)
    decreases StreamSize(st)
  {
    match st
    case Empty =>
    case Immature(Ok(t)) =>
      BindCollects(t, g);
    case Mature(h, t) =>
      BindCollects(t, g);
      var first, rest := g(h).value, Bind(t, g).value;
      MPlusPermutes(first, rest);
      MPlusAnswersFrom(first, rest);
      assert Answers(st)[1..] == Answers(t);
  }
}
