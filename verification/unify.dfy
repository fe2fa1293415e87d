/** Structural unification without an occurs check (jKanren.js lines 212-234). */
module Unification {
  import opened Js
  import opened Terms
  import opened Substitutions

  /** What `unify` produces: a substitution, `false`, or an exception. */
  datatype Unified = Sub(s: Substitution) | Fail | Thrown(e: JsError)

  /** How many nested `unify` calls the engine's call stack admits before it
      throws a RangeError. The value stands in for the engine's own limit. */
  const StackDepth: nat := 10000

  /** `unify(u, v, s)` as the source evidently intends it: when the cars of
      two pairs fail to unify, the whole unification fails. `depth` is the
      number of nested calls still allowed on the stack. */
  function Unify(u: Term, v: Term, s: Substitution, depth: nat): (r: Unified)
    ensures r != Thrown(TypeError)
    ensures r.Sub? ==> IsSuffix(s, r.s)
    decreases depth, 1
  {
    if depth == 0 then Thrown(RangeError)
    else UnifyWalked(Walk(u, s), Walk(v, s), s, depth)
  }

  /** The body of `unify` once both terms are walked. */
  function UnifyWalked(wu: Term, wv: Term, s: Substitution, depth: nat): (r: Unified)
    requires depth > 0
    requires !(wu.Var? && Bound(wu.id, s)) && !(wv.Var? && Bound(wv.id, s))
    ensures r != Thrown(TypeError)
    ensures r.Sub? ==> IsSuffix(s, r.s)
    decreases depth, 0
  {
    if IsVar(wu) && IsVar(wv) && EqualVar(wu, wv) then Sub(s)
    else if IsVar(wu) then
      EqualVarMeaning(wu, wv);
      ExtSWellFormed(wu.id, wv, s);
      Sub(ExtS(wu.id, wv, s))
    else if IsVar(wv) then
      ExtSWellFormed(wv.id, wu, s);
      Sub(ExtS(wv.id, wu, s))
    else if IsPair(wu) && IsPair(wv) then
      match Unify(wu.car, wv.car, s, depth - 1)
      case Sub(s1) =>
        var r := Unify(wu.cdr, wv.cdr, s1, depth - 1);
        if r.Sub? then SuffixTransitive(s, s1, r.s); r else r
      case Fail => Fail
      case Thrown(e) => Thrown(e)
    else if wu == wv then Sub(s)
    else Fail
  }

  /** `unify(u, v, s)` exactly as written: `and(s, unify(cdr(u), cdr(v), s))`
      evaluates its second argument even when the car unification returned
      false, and `walk(cdr(u), false)` then calls `car(false)` inside `assp`,
      which throws a TypeError. */
  function UnifyAsWritten(u: Term, v: Term, s: Substitution, depth: nat): (r: Unified)
    ensures r.Sub? ==> IsSuffix(s, r.s)
    decreases depth, 1
  {
    if depth == 0 then Thrown(RangeError)
    else UnifyAsWrittenWalked(Walk(u, s), Walk(v, s), s, depth)
  }

  /** The body of `UnifyAsWritten` once both terms are walked. */
  function UnifyAsWrittenWalked(wu: Term, wv: Term, s: Substitution, depth: nat): (r: Unified)
    requires depth > 0
    requires !(wu.Var? && Bound(wu.id, s)) && !(wv.Var? && Bound(wv.id, s))
    ensures r.Sub? ==> IsSuffix(s, r.s)
    decreases depth, 0
  {
    if IsVar(wu) && IsVar(wv) && EqualVar(wu, wv) then Sub(s)
    else if IsVar(wu) then
      EqualVarMeaning(wu, wv);
      ExtSWellFormed(wu.id, wv, s);
      Sub(ExtS(wu.id, wv, s))
    else if IsVar(wv) then
      ExtSWellFormed(wv.id, wu, s);
      Sub(ExtS(wv.id, wu, s))
    else if IsPair(wu) && IsPair(wv) then
      match UnifyAsWritten(wu.car, wv.car, s, depth - 1)
      case Sub(s1) =>
        var r := UnifyAsWritten(wu.cdr, wv.cdr, s1, depth - 1);
        if r.Sub? then SuffixTransitive(s, s1, r.s); r else r
      case Fail => Thrown(TypeError)
      case Thrown(e) => Thrown(e)
    else if wu == wv then Sub(s)
    else Fail
  }

  lemma SuffixTransitive(a: seq<Binding>, b: seq<Binding>, c: seq<Binding>)
    requires IsSuffix(a, b) && IsSuffix(b, c)
    ensures IsSuffix(a, c)
  {
    assert c[|c| - |a|..] == c[|c| - |b|..][|b| - |a|..];
  }

  /** The TypeError that the source throws is exactly where the intended
      unification fails; every other outcome is the same. */
  function Intended(r: Unified): Unified
  {
    if r == Thrown(TypeError) then Fail else r
  }

  lemma UnifyIsIntendedAsWritten(u: Term, v: Term, s: Substitution, depth: nat)
    ensures Unify(u, v, s, depth) == Intended(UnifyAsWritten(u, v, s, depth))
    decreases depth, 1
  {
    if depth > 0 {
      WalkedIsIntendedAsWritten(Walk(u, s), Walk(v, s), s, depth);
    }
  }

  lemma WalkedIsIntendedAsWritten(wu: Term, wv: Term, s: Substitution, depth: nat)
    requires depth > 0
    requires !(wu.Var? && Bound(wu.id, s)) && !(wv.Var? && Bound(wv.id, s))
    ensures UnifyWalked(wu, wv, s, depth) == Intended(UnifyAsWrittenWalked(wu, wv, s, depth))
    decreases depth, 0
  {
    if !IsVar(wu) && !IsVar(wv) && IsPair(wu) && IsPair(wv) {
      UnifyIsIntendedAsWritten(wu.car, wv.car, s, depth - 1);
      var r1 := UnifyAsWritten(wu.car, wv.car, s, depth - 1);
      if r1.Sub? {
        UnifyIsIntendedAsWritten(wu.cdr, wv.cdr, r1.s, depth - 1);
      }
      PairsIntendedAsWritten(wu, wv, s, depth);
    } else {
      AtomsIntendedAsWritten(wu, wv, s, depth);
    }
  }

  /** The pair case of the step above, given what holds of the cars and,
      after a successful car, of the cdrs. */
  lemma PairsIntendedAsWritten(wu: Term, wv: Term, s: Substitution, depth: nat)
    requires depth > 0
    requires !IsVar(wu) && !IsVar(wv) && IsPair(wu) && IsPair(wv)
    requires Unify(wu.car, wv.car, s, depth - 1) == Intended(UnifyAsWritten(wu.car, wv.car, s, depth - 1))
    requires var r1 := UnifyAsWritten(wu.car, wv.car, s, depth - 1);
      r1.Sub? ==> Unify(wu.cdr, wv.cdr, r1.s, depth - 1) == Intended(UnifyAsWritten(wu.cdr, wv.cdr, r1.s, depth - 1))
    ensures UnifyWalked(wu, wv, s, depth) == Intended(UnifyAsWrittenWalked(wu, wv, s, depth))
  {
  }

  /** Every case of the step above other than two pairs. */
  lemma AtomsIntendedAsWritten(wu: Term, wv: Term, s: Substitution, depth: nat)
    requires depth > 0
    requires !(wu.Var? && Bound(wu.id, s)) && !(wv.Var? && Bound(wv.id, s))
    requires !(!IsVar(wu) && !IsVar(wv) && IsPair(wu) && IsPair(wv))
    ensures UnifyWalked(wu, wv, s, depth) == Intended(UnifyAsWrittenWalked(wu, wv, s, depth))
  {
  }

  /** As written, two pairs whose cars fail to unify throw a TypeError. */
  lemma CarFailureThrows(u: Term, v: Term, s: Substitution, depth: nat)
    requires depth > 0
    requires Walk(u, s).Pair? && Walk(v, s).Pair?
    requires UnifyAsWritten(Walk(u, s).car, Walk(v, s).car, s, depth - 1) == Fail
    ensures UnifyAsWritten(u, v, s, depth) == Thrown(TypeError)
    ensures Unify(u, v, s, depth) == Fail
  {
    PairsCarFailureThrows(Walk(u, s), Walk(v, s), s, depth);
    UnifyIsIntendedAsWritten(u, v, s, depth);
  }

  lemma PairsCarFailureThrows(wu: Term, wv: Term, s: Substitution, depth: nat)
    requires depth > 0 && wu.Pair? && wv.Pair?
    requires UnifyAsWritten(wu.car, wv.car, s, depth - 1) == Fail
    ensures UnifyAsWrittenWalked(wu, wv, s, depth) == Thrown(TypeError)
  {
  }

  /** A concrete instance: `unify(list(1), list(2), Null)` throws instead of
      returning false. */
  lemma OneAgainstTwoThrows()
    ensures UnifyAsWritten(List([Num(1)]), List([Num(2)]), [], StackDepth) == Thrown(TypeError)
    ensures Unify(List([Num(1)]), List([Num(2)]), [], StackDepth) == Fail
  {
    SingletonList(Num(1));
    SingletonList(Num(2));
    WalkUnfold(Pair(Num(1), Null), []);
    WalkUnfold(Pair(Num(2), Null), []);
    AtomsAsWritten(Num(1), Num(2), [], StackDepth - 1);
    CarFailureThrows(Pair(Num(1), Null), Pair(Num(2), Null), [], StackDepth);
  }

  lemma SingletonList(x: Term)
    ensures List([x]) == Pair(x, Null)
  {
    ListElements([x]);
    assert [x][1..] == [];
  }

  /** As written, too, atoms unify exactly when they are identical. */
  lemma AtomsAsWritten(a: Term, b: Term, s: Substitution, depth: nat)
    requires depth > 0 && !a.Var? && !b.Var? && !a.Pair? && !b.Pair?
    ensures UnifyAsWritten(a, b, s, depth) == (if a == b then Sub(s) else Fail)
  {
    WalkUnfold(a, s);
    WalkUnfold(b, s);
  }

  /** A successful unification only prepends bindings, each for a variable
      that was unbound in the input, and never binds a variable twice. */
  lemma UnifyOnlyPrepends(u: Term, v: Term, s: Substitution, depth: nat)
    requires Unify(u, v, s, depth).Sub?
    ensures var s' := Unify(u, v, s, depth).s;
      && IsSuffix(s, s')
      && (forall i :: 0 <= i < |s'| - |s| ==> !Bound(s'[i].0, s))
      && (forall i, j :: 0 <= i < j < |s'| ==> s'[i].0 != s'[j].0)
  {
    var s' := Unify(u, v, s, depth).s;
    KeysDistinct(s');
    forall i | 0 <= i < |s'| - |s| ensures !Bound(s'[i].0, s) {
      NewBindingUnbound(s', i, s);
    }
  }

  lemma {:induction false} NewBindingUnbound(s': Substitution, i: nat, s: seq<Binding>)
    requires IsSuffix(s, s') && i < |s'| - |s|
    ensures !Bound(s'[i].0, s)
  {
    if i == 0 {
      assert IsSuffix(s, s'[1..]) by {
        assert s'[1..][|s'[1..]| - |s|..] == s'[|s'| - |s|..];
      }
      if Bound(s'[0].0, s) {
        BoundInExtension(s'[0].0, s, s'[1..]);
      }
    } else {
      assert IsSuffix(s, s'[1..]) by {
        assert s'[1..][|s'[1..]| - |s|..] == s'[|s'| - |s|..];
      }
      NewBindingUnbound(s'[1..], i - 1, s);
    }
  }

  /** `u` and `v` resolve alike under `s` to `n` levels of pairs: they walk
      to the same term, or both to pairs whose parts resolve alike. */
  predicate Agree(u: Term, v: Term, s: Substitution, n: nat)
    decreases n
  {
    var wu := Walk(u, s);
    var wv := Walk(v, s);
    wu == wv ||
    (&& n > 0 && wu.Pair? && wv.Pair?
     && Agree(wu.car, wv.car, s, n - 1)
     && Agree(wu.cdr, wv.cdr, s, n - 1))
  }

  /** Prepending bindings keeps terms that resolved alike resolving alike. */
  lemma {:induction false} AgreeInExtension(u: Term, v: Term, s: Substitution, s': Substitution, n: nat)
    requires IsSuffix(s, s') && Agree(u, v, s, n)
    ensures Agree(u, v, s', n)
    decreases n
  {
    WalkInExtension(u, s, s');
    WalkInExtension(v, s, s');
    var wu, wv := Walk(u, s), Walk(v, s);
    if wu != wv {
      AgreeInExtension(wu.car, wv.car, s, s', n - 1);
      AgreeInExtension(wu.cdr, wv.cdr, s, s', n - 1);
    }
  }

  /** The substitution a successful unification returns is a unifier: under
      it both terms resolve alike, as deep as the call stack reached. */
  lemma UnifyUnifies(u: Term, v: Term, s: Substitution, depth: nat)
    requires Unify(u, v, s, depth).Sub?
    ensures Agree(u, v, Unify(u, v, s, depth).s, depth)
    decreases depth, 2
  {
    var wu, wv := Walk(u, s), Walk(v, s);
    var s' := Unify(u, v, s, depth).s;
    WalkedUnifies(wu, wv, s, depth);
    WalkInExtension(u, s, s');
    WalkInExtension(v, s, s');
    WalkUnfold(wu, s');
    WalkUnfold(wv, s');
  }

  lemma WalkedUnifies(wu: Term, wv: Term, s: Substitution, depth: nat)
    requires depth > 0
    requires !(wu.Var? && Bound(wu.id, s)) && !(wv.Var? && Bound(wv.id, s))
    requires UnifyWalked(wu, wv, s, depth).Sub?
    ensures Agree(wu, wv, UnifyWalked(wu, wv, s, depth).s, depth)
    decreases depth, 1
  {
    var s' := UnifyWalked(wu, wv, s, depth).s;
    if IsVar(wu) && IsVar(wv) && EqualVar(wu, wv) {
      EqualVarMeaning(wu, wv);
    } else if IsVar(wu) {
      WalkUnfold(wu, s');
    } else if IsVar(wv) {
      WalkUnfold(wv, s');
    } else if IsPair(wu) && IsPair(wv) {
      var s1 := Unify(wu.car, wv.car, s, depth - 1).s;
      assert s' == Unify(wu.cdr, wv.cdr, s1, depth - 1).s;
      PairsUnify(wu, wv, s, s1, s', depth);
    }
  }

  lemma PairsUnify(wu: Term, wv: Term, s: Substitution, s1: Substitution, s': Substitution, depth: nat)
    requires depth > 0 && wu.Pair? && wv.Pair?
    requires Unify(wu.car, wv.car, s, depth - 1) == Sub(s1)
    requires Unify(wu.cdr, wv.cdr, s1, depth - 1) == Sub(s')
    ensures Agree(wu, wv, s', depth)
    decreases depth, 0
  {
    UnifyUnifies(wu.car, wv.car, s, depth - 1);
    UnifyUnifies(wu.cdr, wv.cdr, s1, depth - 1);
    PairsAgree(wu, wv, s1, s', depth);
  }

  /** Two pairs resolve alike under `s'` when their cars did under `s1`, of
      which `s'` is an extension, and their cdrs do under `s'`. */
  lemma PairsAgree(wu: Term, wv: Term, s1: Substitution, s': Substitution, depth: nat)
    requires depth > 0 && wu.Pair? && wv.Pair? && IsSuffix(s1, s')
    requires Agree(wu.car, wv.car, s1, depth - 1) && Agree(wu.cdr, wv.cdr, s', depth - 1)
    ensures Agree(wu, wv, s', depth)
  {
    AgreeInExtension(wu.car, wv.car, s1, s', depth - 1);
    AgreeOfParts(wu, wv, s', depth);
  }

  /** Two pairs resolve alike when their parts do. */
  lemma AgreeOfParts(wu: Term, wv: Term, s: Substitution, n: nat)
    requires n > 0 && wu.Pair? && wv.Pair?
    requires Agree(wu.car, wv.car, s, n - 1) && Agree(wu.cdr, wv.cdr, s, n - 1)
    ensures Agree(wu, wv, s, n)
  {
    WalkUnfold(wu, s);
    WalkUnfold(wv, s);
  }

  /** More stack never changes an outcome that did not run out of stack. */
  lemma UnifyDepthMonotone(u: Term, v: Term, s: Substitution, depth: nat, depth': nat)
    requires depth <= depth' && Unify(u, v, s, depth) != Thrown(RangeError)
    ensures Unify(u, v, s, depth') == Unify(u, v, s, depth)
    decreases depth, 2
  {
    WalkedDepthMonotone(Walk(u, s), Walk(v, s), s, depth, depth');
  }

  lemma WalkedDepthMonotone(wu: Term, wv: Term, s: Substitution, depth: nat, depth': nat)
    requires 0 < depth <= depth'
    requires !(wu.Var? && Bound(wu.id, s)) && !(wv.Var? && Bound(wv.id, s))
    requires UnifyWalked(wu, wv, s, depth) != Thrown(RangeError)
    ensures UnifyWalked(wu, wv, s, depth') == UnifyWalked(wu, wv, s, depth)
    decreases depth, 1
  {
    if !IsVar(wu) && !IsVar(wv) && IsPair(wu) && IsPair(wv) {
      PairsNoOverflow(wu, wv, s, depth);
      PartsDepthMonotone(wu, wv, s, depth, depth');
      PairsDepthMonotone(wu, wv, s, depth, depth');
    } else {
      AtomsDepthMonotone(wu, wv, s, depth, depth');
    }
  }

  /** The induction step for two pairs: the cars, and after a successful car
      the cdrs, unify alike with more stack. */
  lemma PartsDepthMonotone(wu: Term, wv: Term, s: Substitution, depth: nat, depth': nat)
    requires 0 < depth <= depth' && wu.Pair? && wv.Pair?
    requires Unify(wu.car, wv.car, s, depth - 1) != Thrown(RangeError)
    requires var r1 := Unify(wu.car, wv.car, s, depth - 1);
      r1.Sub? ==> Unify(wu.cdr, wv.cdr, r1.s, depth - 1) != Thrown(RangeError)
    ensures Unify(wu.car, wv.car, s, depth' - 1) == Unify(wu.car, wv.car, s, depth - 1)
    ensures var r1 := Unify(wu.car, wv.car, s, depth - 1);
      r1.Sub? ==> Unify(wu.cdr, wv.cdr, r1.s, depth' - 1) == Unify(wu.cdr, wv.cdr, r1.s, depth - 1)
    decreases depth, 0
  {
    UnifyDepthMonotone(wu.car, wv.car, s, depth - 1, depth' - 1);
    if Unify(wu.car, wv.car, s, depth - 1).Sub? {
      UnifyDepthMonotone(wu.cdr, wv.cdr, Unify(wu.car, wv.car, s, depth - 1).s, depth - 1, depth' - 1);
    }
  }

  /** Two pairs that unify without running out of stack do so for their cars,
      and after a successful car, for their cdrs. */
  lemma PairsNoOverflow(wu: Term, wv: Term, s: Substitution, depth: nat)
    requires depth > 0
    requires !IsVar(wu) && !IsVar(wv) && IsPair(wu) && IsPair(wv)
    requires UnifyWalked(wu, wv, s, depth) != Thrown(RangeError)
    ensures Unify(wu.car, wv.car, s, depth - 1) != Thrown(RangeError)
    ensures var r1 := Unify(wu.car, wv.car, s, depth - 1);
      r1.Sub? ==> Unify(wu.cdr, wv.cdr, r1.s, depth - 1) != Thrown(RangeError)
  {
  }

  lemma PairsDepthMonotone(wu: Term, wv: Term, s: Substitution, depth: nat, depth': nat)
    requires 0 < depth <= depth'
    requires !IsVar(wu) && !IsVar(wv) && IsPair(wu) && IsPair(wv)
    requires Unify(wu.car, wv.car, s, depth' - 1) == Unify(wu.car, wv.car, s, depth - 1)
    requires var r1 := Unify(wu.car, wv.car, s, depth - 1);
      r1.Sub? ==> Unify(wu.cdr, wv.cdr, r1.s, depth' - 1) == Unify(wu.cdr, wv.cdr, r1.s, depth - 1)
    ensures UnifyWalked(wu, wv, s, depth') == UnifyWalked(wu, wv, s, depth)
  {
  }

  lemma AtomsDepthMonotone(wu: Term, wv: Term, s: Substitution, depth: nat, depth': nat)
    requires 0 < depth <= depth'
    requires !(wu.Var? && Bound(wu.id, s)) && !(wv.Var? && Bound(wv.id, s))
    requires !(!IsVar(wu) && !IsVar(wv) && IsPair(wu) && IsPair(wv))
    ensures UnifyWalked(wu, wv, s, depth') == UnifyWalked(wu, wv, s, depth)
  {
  }

  /** Two terms that walk to the same variable unify without a new binding. */
  lemma UnifySameVariable(u: Term, v: Term, s: Substitution, depth: nat)
    requires depth > 0 && Walk(u, s).Var? && Walk(u, s) == Walk(v, s)
    ensures Unify(u, v, s, depth) == Sub(s)
  {
  }

  /** An unbound variable unifies with any term that does not walk to it by
      prepending one binding of the variable to that term's walk. */
  lemma UnifyBindsVariable(x: nat, v: Term, s: Substitution, depth: nat)
    requires depth > 0 && !Bound(x, s) && Walk(v, s) != Var(x)
    ensures Unify(Var(x), v, s, depth).Sub?
    ensures Unify(Var(x), v, s, depth).s == ExtS(x, Walk(v, s), s)
  {
    WalkUnfold(Var(x), s);
    EqualVarMeaning(Var(x), Walk(v, s));
  }

  /** Atoms, i.e. terms that are neither variables nor pairs, unify exactly
      when they are identical (`===`), and a pair never unifies with an atom. */
  lemma UnifyAtoms(u: Term, v: Term, s: Substitution, depth: nat)
    requires depth > 0 && !u.Var? && !v.Var?
    ensures !u.Pair? && !v.Pair? ==> Unify(u, v, s, depth) == (if u == v then Sub(s) else Fail)
    ensures u.Pair? != v.Pair? ==> Unify(u, v, s, depth) == Fail
  {
    WalkUnfold(u, s);
    WalkUnfold(v, s);
  }

  /** Every variable in `t` walks to a variable under `s`. */
  predicate VariablesUnresolved(t: Term, s: Substitution)
  {
    match t
    case Var(_) => Walk(t, s).Var?
    case Pair(a, d) => VariablesUnresolved(a, s) && VariablesUnresolved(d, s)
    case _ => true
  }

  function Height(t: Term): nat
  {
    match t
    case Pair(a, d) => 1 + if Height(a) < Height(d) then Height(d) else Height(a)
    case _ => 0
  }

  /** Every term unifies with itself to the input substitution, whatever its
      variables are bound to, unless the stack runs out first. */
  lemma {:induction false} UnifyWithItself(t: Term, s: Substitution, depth: nat)
    ensures Unify(t, t, s, depth) == Sub(s) || Unify(t, t, s, depth) == Thrown(RangeError)
    decreases depth, 1
  {
    if depth > 0 {
      WalkedWithItself(Walk(t, s), s, depth);
    }
  }

  lemma {:induction false} WalkedWithItself(w: Term, s: Substitution, depth: nat)
    requires depth > 0 && !(w.Var? && Bound(w.id, s))
    ensures UnifyWalked(w, w, s, depth) == Sub(s) || UnifyWalked(w, w, s, depth) == Thrown(RangeError)
    decreases depth, 0
  {
    if w.Var? {
      EqualVarMeaning(w, w);
    } else if w.Pair? {
      UnifyWithItself(w.car, s, depth - 1);
      UnifyWithItself(w.cdr, s, depth - 1);
    }
  }

  /** A term unifies with itself without a new binding, when none of its
      variables is bound to a non-variable and the stack is deep enough. */
  lemma {:induction false} UnifySelf(t: Term, s: Substitution, depth: nat)
    requires depth > Height(t) && VariablesUnresolved(t, s)
    ensures Unify(t, t, s, depth) == Sub(s)
    decreases Size(t), 1
  {
    if t.Pair? {
      PairSelf(t, s, depth);
    } else {
      var w := Walk(t, s);
      AtomUnifiesWithItself(t, s, depth);
      assert Unify(t, t, s, depth) == UnifyWalked(w, w, s, depth);
    }
  }

  lemma {:induction false} PairSelf(t: Term, s: Substitution, depth: nat)
    requires t.Pair? && depth > Height(t) && VariablesUnresolved(t, s)
    ensures Unify(t, t, s, depth) == Sub(s)
    decreases Size(t), 0
  {
    UnifySelf(t.car, s, depth - 1);
    UnifySelf(t.cdr, s, depth - 1);
    WalkUnfold(t, s);
    PairUnifiesWithItself(t, s, depth);
    assert Unify(t, t, s, depth) == UnifyWalked(t, t, s, depth);
  }

  lemma PairUnifiesWithItself(t: Term, s: Substitution, depth: nat)
    requires depth > 0 && t.Pair?
    requires Unify(t.car, t.car, s, depth - 1) == Sub(s)
    requires Unify(t.cdr, t.cdr, s, depth - 1) == Sub(s)
    ensures UnifyWalked(t, t, s, depth) == Sub(s)
  {
  }

  lemma AtomUnifiesWithItself(t: Term, s: Substitution, depth: nat)
    requires depth > 0 && !t.Pair? && VariablesUnresolved(t, s)
    ensures UnifyWalked(Walk(t, s), Walk(t, s), s, depth) == Sub(s)
  {
    WalkUnfold(t, s);
    EqualVarMeaning(Walk(t, s), Walk(t, s));
  }

  /** Without an occurs check the condition above matters: once `x` is bound
      to `(1 . x)`, unifying `x` with itself recurses until the stack is gone. */
  lemma {:induction false} UnifySelfOverflows(depth: nat)
    ensures WellFormed([(0, Pair(Num(1), Var(0)))])
    ensures Unify(Var(0), Var(0), [(0, Pair(Num(1), Var(0)))], depth) == Thrown(RangeError)
  {
    var p := Pair(Num(1), Var(0));
    assert [(0, p)][1..] == [];
    assert !Bound(0, []);
    assert WellFormed([(0, p)]);
    var s: Substitution := [(0, p)];
    if depth > 0 {
      WalkUnfold(Var(0), s);
      WalkUnfold(p, s);
      assert Walk(Var(0), s) == p;
      assert Unify(Var(0), Var(0), s, depth) == UnifyWalked(p, p, s, depth);
      if depth > 1 {
        WalkUnfold(Num(1), s);
        assert Unify(Num(1), Num(1), s, depth - 1) == UnifyWalked(Num(1), Num(1), s, depth - 1) == Sub(s);
        UnifySelfOverflows(depth - 1);
      }
    }
  }
}
