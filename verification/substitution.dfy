/** Substitutions: association lists of variable bindings, searched head-first
    by `assp`, extended by `extS` and resolved by `walk` (jKanren.js lines
    164-191). */
module Substitutions {
  import opened Js
  import opened Terms

  /** A binding `cons(x, v)` of the variable numbered `x` to the term `v`. */
  type Binding = (nat, Term)

  /** The position of the first (head-most) binding of variable `x`, or `|s|`. */
  function IndexOf(x: nat, s: seq<Binding>): (i: nat)
    ensures i <= |s|
    ensures i < |s| ==> s[i].0 == x
    ensures forall j :: 0 <= j < i ==> s[j].0 != x
  {
    if |s| == 0 then 0
    else if s[0].0 == x then 0
    else 1 + IndexOf(x, s[1..])
  }

  predicate Bound(x: nat, s: seq<Binding>)
  {
    IndexOf(x, s) < |s|
  }

  lemma BoundMeaning(x: nat, s: seq<Binding>)
    ensures Bound(x, s) <==> exists i :: 0 <= i < |s| && s[i].0 == x
  {
    if !Bound(x, s) {
      assert forall i :: 0 <= i < |s| ==> s[i].0 != x;
    }
  }

  /** The shape every substitution built by unification has: the newest
      binding's variable is unbound in the older bindings, and when its value
      is a variable, that variable is a different one, also unbound there.
      It rules out cycles of variable-to-variable bindings. */
  predicate WellFormed(s: seq<Binding>)
  {
    |s| == 0 ||
    (&& !Bound(s[0].0, s[1..])
     && (s[0].1.Var? ==> s[0].1.id != s[0].0 && !Bound(s[0].1.id, s[1..]))
     && WellFormed(s[1..]))
  }

  type Substitution = s: seq<Binding> | WellFormed(s) witness []

  /** `s` is what remains of `s'` after dropping the bindings prepended to it. */
  predicate IsSuffix(s: seq<Binding>, s': seq<Binding>)
  {
    |s| <= |s'| && s'[|s'| - |s|..] == s
  }

  /** `extS(x, v, s)`: prepends the binding of `x` to `v`, checking nothing. */
  function ExtS(x: nat, v: Term, s: seq<Binding>): (r: seq<Binding>)
    ensures IsSuffix(s, r) && |r| == |s| + 1
    ensures r[0] == (x, v) && r[1..] == s
  {
    [(x, v)] + s
  }

  /** The extension keeps the shape when the variable is unbound and the value
      is not a bound variable or the variable itself. */
  lemma ExtSWellFormed(x: nat, v: Term, s: Substitution)
    requires !Bound(x, s)
    requires v.Var? ==> v.id != x && !Bound(v.id, s)
    ensures WellFormed(ExtS(x, v, s))
  {
    assert ExtS(x, v, s)[1..] == s;
  }

  /** Binding one variable leaves every other unbound variable unbound. */
  lemma UnboundAfterExtS(x: nat, v: Term, s: seq<Binding>, y: nat)
    requires y != x && !Bound(y, s)
    ensures !Bound(y, ExtS(x, v, s))
  {
    assert ExtS(x, v, s)[1..] == s;
  }

  /** `assp(lss, p)`: the first binding whose variable satisfies `p`, or false. */
  function Assp(lss: seq<Binding>, p: Term -> bool): (r: JsValue<Binding>)
    ensures r != JTrue
    ensures r.JOther? ==> r.v in lss && p(Var(r.v.0))
    ensures r == JFalse <==> forall i :: 0 <= i < |lss| ==> !p(Var(lss[i].0))
    ensures r.JOther? ==> exists k :: 0 <= k < |lss| && r.v == lss[k] && forall j :: 0 <= j < k ==> !p(Var(lss[j].0))
  {
    if |lss| == 0 then JFalse
    else if p(Var(lss[0].0)) then JOther(lss[0])
    else Assp(lss[1..], p)
  }

  /** The predicate `walk` hands to `assp`: `v => equalVar(u, v)`. */
  function SameVar(u: Term): Term -> bool
  {
    (v: Term) => EqualVar(u, v)
  }

  /** Searching for `u` finds the head-most binding of `u` when `u` is a
      variable, and nothing when `u` is any other term. */
  lemma {:induction false} AsspFindsFirstBinding(u: Term, s: seq<Binding>)
    ensures Assp(s, SameVar(u)) ==
      if u.Var? && Bound(u.id, s) then JOther(s[IndexOf(u.id, s)]) else JFalse
  {
    if |s| > 0 {
      EqualVarMeaning(u, Var(s[0].0));
      AsspFindsFirstBinding(u, s[1..]);
    }
  }

  /** The measure under which `walk` terminates: one past the position of the
      variable's first binding, and 0 for anything `walk` returns at once. */
  function WalkRank(u: Term, s: seq<Binding>): nat
  {
    if u.Var? && Bound(u.id, s) then IndexOf(u.id, s) + 1 else 0
  }

  /** Following a binding moves strictly towards the tail of the substitution. */
  lemma {:induction false} RankDecreases(x: nat, s: seq<Binding>)
    requires WellFormed(s) && Bound(x, s)
    ensures WalkRank(s[IndexOf(x, s)].1, s) < IndexOf(x, s) + 1
  {
    if s[0].0 != x {
      RankDecreases(x, s[1..]);
    }
  }

  /** `walk(u, s)`: resolves a variable through its chain of bindings. The
      `and` evaluates `assp` even when `u` is not a variable. */
  function Walk(u: Term, s: Substitution): (r: Term)
    ensures !(r.Var? && Bound(r.id, s))
    ensures r == u || exists i :: 0 <= i < |s| && s[i].1 == r
    decreases WalkRank(u, s)
  {
    var pr := And([FromBool(IsVar(u)), Assp(s, SameVar(u))]);
    AsspFindsFirstBinding(u, s);
    if pr.JOther? then
      RankDecreases(u.id, s);
      Walk(pr.v.1, s)
    else
      u
  }

  /** `walk` returns a non-variable or an unbound variable unchanged, and
      otherwise continues from the value of the head-most binding. */
  lemma WalkUnfold(u: Term, s: Substitution)
    ensures !u.Var? ==> Walk(u, s) == u
    ensures u.Var? && !Bound(u.id, s) ==> Walk(u, s) == u
    ensures u.Var? && Bound(u.id, s) ==> Walk(u, s) == Walk(s[IndexOf(u.id, s)].1, s)
  {
    AsspFindsFirstBinding(u, s);
  }

  /** Walking twice is walking once. */
  lemma WalkIdempotent(t: Term, s: Substitution)
    ensures Walk(Walk(t, s), s) == Walk(t, s)
  {
    WalkUnfold(Walk(t, s), s);
  }

  /** A variable bound in a suffix is bound in the whole. */
  lemma BoundInExtension(x: nat, s: seq<Binding>, s': seq<Binding>)
    requires IsSuffix(s, s') && Bound(x, s)
    ensures Bound(x, s')
  {
    BoundMeaning(x, s);
    var i :| 0 <= i < |s| && s[i].0 == x;
    assert s'[|s'| - |s| + i] == s[i];
    BoundMeaning(x, s');
  }

  /** In a well-formed substitution, a variable already bound in a suffix is
      not bound again by the prepended bindings. */
  lemma {:induction false} IndexInExtension(x: nat, s: seq<Binding>, s': seq<Binding>)
    requires WellFormed(s') && IsSuffix(s, s') && Bound(x, s)
    ensures IndexOf(x, s') == |s'| - |s| + IndexOf(x, s)
    decreases |s'|
  {
    if |s'| == |s| {
      assert s' == s;
    } else {
      assert IsSuffix(s, s'[1..]) by {
        assert s'[1..][|s'[1..]| - |s|..] == s'[|s'| - |s|..];
      }
      BoundInExtension(x, s, s'[1..]);
      IndexInExtension(x, s, s'[1..]);
    }
  }

  /** Prepending bindings changes the walk of a term only where its walk in
      the suffix stopped at a variable; there it continues from that variable. */
  lemma {:induction false} WalkInExtension(t: Term, s: Substitution, s': Substitution)
    requires IsSuffix(s, s')
    ensures Walk(t, s') == (var w := Walk(t, s); if w.Var? then Walk(w, s') else w)
    decreases WalkRank(t, s)
  {
    if t.Var? && Bound(t.id, s) {
      RankDecreases(t.id, s);
      WalkInExtension(s[IndexOf(t.id, s)].1, s, s');
      WalkBoundInExtension(t.id, s, s');
    } else {
      WalkUnfold(t, s);
    }
  }

  /** A variable bound in the suffix walks, in the whole, from the value of
      its binding in the suffix, as it does in the suffix itself. */
  lemma WalkBoundInExtension(x: nat, s: Substitution, s': Substitution)
    requires IsSuffix(s, s') && Bound(x, s)
    ensures Walk(Var(x), s) == Walk(s[IndexOf(x, s)].1, s)
    ensures Walk(Var(x), s') == Walk(s[IndexOf(x, s)].1, s')
  {
    BindingInExtension(x, s, s');
    WalkUnfold(Var(x), s);
    WalkUnfold(Var(x), s');
  }

  /** The head-most binding of a variable bound in the suffix is the same
      binding in the whole. */
  lemma BindingInExtension(x: nat, s: Substitution, s': Substitution)
    requires IsSuffix(s, s') && Bound(x, s)
    ensures Bound(x, s') && s'[IndexOf(x, s')] == s[IndexOf(x, s)]
  {
    IndexInExtension(x, s, s');
    BoundInExtension(x, s, s');
    assert s'[|s'| - |s| + IndexOf(x, s)] == s[IndexOf(x, s)];
  }

  /** No variable is bound twice in a well-formed substitution. */
  lemma {:induction false} KeysDistinct(s: Substitution)
    ensures forall i, j :: 0 <= i < j < |s| ==> s[i].0 != s[j].0
  {
    if |s| > 0 {
      KeysDistinct(s[1..]);
      BoundMeaning(s[0].0, s[1..]);
      forall j | 0 < j < |s| ensures s[0].0 != s[j].0 {
        assert s[1..][j - 1] == s[j];
      }
    }
  }
}
