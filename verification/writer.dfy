/** The printer `writer` (jKanren.js lines 29-83): renders a term in Scheme
    notation, `()` for the empty list, `#t`/`#f` for booleans, `#(c)` for the
    variable numbered `c`, and lists in parentheses with a dot before an
    improper tail. */
module Writer {
  import opened Js
  import opened Terms

  /** The decimal digit for `d`. */
  function Digit(d: nat): (c: char)
    requires d < 10
    ensures '0' <= c <= '9' && c as int - '0' as int == d
  {
    (d + '0' as int) as char
  }

  /** JavaScript's `String(n)` for a natural number: its decimal digits,
      with no leading zero. */
  function Decimal(n: nat): (r: string)
    ensures |r| > 0
    ensures forall i :: 0 <= i < |r| ==> '0' <= r[i] <= '9'
    ensures r[0] == '0' ==> n == 0
    decreases n
  {
    if n < 10 then [Digit(n)] else Decimal(n / 10) + [Digit(n % 10)]
  }

  /** The number a string of decimal digits denotes. */
  function DecimalValue(s: string): int
  {
    if |s| == 0 then 0
    else 10 * DecimalValue(s[..|s| - 1]) + (s[|s| - 1] as int - '0' as int)
  }

  /** Reading back the digits gives the number. */
  lemma {:induction false} DecimalRoundTrip(n: nat)
    ensures DecimalValue(Decimal(n)) == n
    decreases n
  {
    var r := Decimal(n);
    if n >= 10 {
      DecimalRoundTrip(n / 10);
      assert r[..|r| - 1] == Decimal(n / 10);
    }
  }

  /** JavaScript's `String(n)` for an integral number: a minus sign before the
      digits of a negative number. */
  function IntText(n: int): (r: string)
    ensures |r| > 0
    ensures r[0] == '-' <==> n < 0
    ensures n < 0 ==> |r| > 1 && (r[1] == '0' ==> n == 0)
    ensures n >= 0 ==> (r[0] == '0' ==> n == 0)
    ensures forall i :: (if n < 0 then 1 else 0) <= i < |r| ==> '0' <= r[i] <= '9'
    ensures n < 0 ==> DecimalValue(r[1..]) == -n
    ensures n >= 0 ==> DecimalValue(r) == n
  {
    if n < 0 then
      DecimalRoundTrip(-n);
      assert ("-" + Decimal(-n))[1..] == Decimal(-n);
      "-" + Decimal(-n)
    else
      DecimalRoundTrip(n);
      Decimal(n)
  }

  /** The text `writer` produces for a term, as a recursive definition:
      atoms print on their own, a pair prints its car and then the rest of
      the list in one pair of parentheses. */
  function Render(t: Term): string
    decreases Size(t), 0
  {
    match t
    case Null => "()"
    case Bool(b) => if b then "#t" else "#f"
    case Num(n) => IntText(n)
    case Str(s) => s
    case Var(c) => "#(" + Decimal(c) + ")"
    case Pair(a, d) => "(" + Render(a) + RenderTail(d) + ")"
  }

  /** What follows the first element of a list inside its parentheses: the
      remaining elements, each after a space, and ` . tail` for a tail that
      is neither a pair nor the empty list. */
  function RenderTail(d: Term): string
    decreases Size(d), 1
  {
    match d
    case Null => ""
    case Pair(a, d') => " " + Render(a) + RenderTail(d')
    case _ => " . " + Render(d)
  }

  /** `writer(inp)`: prints an atom directly, and a pair by walking its cdr
      chain, printing each car with a recursive call. */
  method Write(inp: Term) returns (result: string)
    ensures result == Render(inp)
    decreases Size(inp)
  {
    var n := inp;
    result := "";
    if !n.Pair? {
      if n.Null? {
        result := result + "()";
      } else if n == Bool(true) {
        result := result + "#t";
      } else if n == Bool(false) {
        result := result + "#f";
      } else if n.Var? {
        result := result + "#(" + Decimal(n.id) + ")";
      } else if n.Num? {
        result := result + IntText(n.n);
      } else {
        result := result + n.s;
      }
      return;
    }
    result := "(";
    while true
      invariant n.Pair? && Size(n) <= Size(inp)
      invariant result + (Render(n.car) + RenderTail(n.cdr) + ")") == Render(inp)
      decreases Size(n)
    {
      ghost var before := result;
      var w := Write(n.car);
      result := result + w;
      if n.cdr.Null? {
        LastElement(before, w, n.cdr);
        break;
      } else if !n.cdr.Pair? {
        var w' := Write(n.cdr);
        DottedTail(before, w, n.cdr, w');
        result := result + (" . " + w');
        break;
      } else {
        NextElement(before, w, n.cdr);
        result := result + " ";
        n := n.cdr;
      }
    }
    result := result + ")";
  }

  /** After the last element of a list ending in `Null` only the closing
      parenthesis is left to print. */
  lemma LastElement(a: string, b: string, d: Term)
    requires d.Null?
    ensures a + (b + RenderTail(d) + ")") == (a + b) + ")"
  {
    assert RenderTail(d) == "";
    assert b + "" == b;
  }

  /** After the last element of a list ending in an atom, ` . ` and the
      atom's text are left to print before the closing parenthesis. */
  lemma DottedTail(a: string, b: string, d: Term, w: string)
    requires !d.Null? && !d.Pair? && w == Render(d)
    ensures a + (b + RenderTail(d) + ")") == (a + b + (" . " + w)) + ")"
  {
    assert RenderTail(d) == " . " + w;
  }

  /** Moving the text of one element and its space from what is left to
      print onto what has been printed. */
  lemma NextElement(a: string, b: string, d: Term)
    requires d.Pair?
    ensures a + (b + RenderTail(d) + ")") == (a + b + " ") + (Render(d.car) + RenderTail(d.cdr) + ")")
  {
    TailOfPair(d);
    Advance(a, b, Render(d.car), RenderTail(d.cdr));
  }

  lemma TailOfPair(d: Term)
    requires d.Pair?
    ensures RenderTail(d) == " " + Render(d.car) + RenderTail(d.cdr)
  {
  }

  lemma Advance(a: string, b: string, c: string, e: string)
    ensures a + (b + (" " + c + e) + ")") == (a + b + " ") + (c + e + ")")
  {
  }

  /** The elements of `xs` printed one after another, separated by single
      spaces (`xs.join(' ')` of their texts). */
  function Joined(xs: seq<Term>): string
  {
    if |xs| == 0 then ""
    else if |xs| == 1 then Render(xs[0])
    else Render(xs[0]) + " " + Joined(xs[1..])
  }

  lemma {:induction false} RenderTailOnto(xs: seq<Term>, tail: Term)
    requires !tail.Pair?
    ensures RenderTail(ListOnto(xs, tail))
         == (if |xs| == 0 then "" else " " + Joined(xs)) + RenderTail(tail)
  {
    if |xs| > 0 {
      RenderTailOnto(xs[1..], tail);
      if |xs| > 1 {
        assert RenderTail(ListOnto(xs, tail))
            == " " + Render(xs[0]) + (" " + Joined(xs[1..]) + RenderTail(tail));
      }
    }
  }

  /** Regrouping the text of a list of at least two elements. */
  lemma Regroup(first: string, others: string, ending: string)
    ensures "(" + first + (" " + others + ending) + ")" == "(" + (first + " " + others) + ending + ")"
  {
  }

  /** A list prints as its elements separated by single spaces inside
      parentheses, with ` . tail` before the closing parenthesis when it ends
      in a tail other than `Null`. */
  lemma RenderListOnto(xs: seq<Term>, tail: Term)
    requires |xs| > 0 && !tail.Pair?
    ensures Render(ListOnto(xs, tail))
         == "(" + Joined(xs) + (if tail.Null? then "" else " . " + Render(tail)) + ")"
  {
    var ending := if tail.Null? then "" else " . " + Render(tail);
    assert RenderTail(tail) == ending;
    assert ListOnto(xs, tail) == Pair(xs[0], ListOnto(xs[1..], tail));
    var rest := RenderTail(ListOnto(xs[1..], tail));
    assert Render(ListOnto(xs, tail)) == "(" + Render(xs[0]) + rest + ")";
    RenderTailOnto(xs[1..], tail);
    if |xs| == 1 {
      assert rest == ending;
      assert Joined(xs) == Render(xs[0]);
    } else {
      var first, others := Render(xs[0]), Joined(xs[1..]);
      assert rest == " " + others + ending;
      assert Joined(xs) == first + " " + others;
      Regroup(first, others, ending);
    }
  }

  /** `writer(list(x1, ..., xn))` is `(x1 ... xn)`, and `()` for no elements. */
  lemma RenderList(xs: seq<Term>)
    ensures Render(List(xs)) == "(" + Joined(xs) + ")"
  {
    ListElements(xs);
    if |xs| > 0 {
      RenderListOnto(xs, Null);
    }
  }
}
