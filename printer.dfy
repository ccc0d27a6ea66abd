/** The `__str__` methods of backend/main.py: the canonical text of an
    expression, used both for the final answer and for every trace step. */
module Printer {
  import opened Terms

  /** The abstraction marker, U+03BB. */
  const Lambda: char := 'λ'

  /** `Variable` prints its name, `Abstraction` as `λp.body`, and
      `Application` as its two sides side by side, wrapped in parentheses
      exactly when the argument is a bare variable. */
  function Print(e: Expr): string
  {
    match e
    case Var(n) => n
    case App(f, a) =>
      if a.Var? then "(" + Print(f) + Print(a) + ")" else Print(f) + Print(a)
    case Abs(p, b) => [Lambda] + p + "." + Print(b)
  }

  /** The printing rules, node kind by node kind. */
  lemma PrintRules(e: Expr)
    ensures e.Var? ==> Print(e) == e.name
    ensures e.Abs? ==> Print(e) == [Lambda] + e.p + "." + Print(e.body)
    ensures e.App? && e.a.Var? ==> Print(e) == "(" + Print(e.f) + Print(e.a) + ")"
    ensures e.App? && !e.a.Var? ==> Print(e) == Print(e.f) + Print(e.a)
  {
  }

  /** Opening minus closing parentheses in `s`. */
  function ParenDepth(s: string): int
  {
    (multiset(s)['('] as int) - (multiset(s)[')'] as int)
  }

  /** Every prefix closes no more parentheses than it opened, and the whole
      text closes all it opened. */
  predicate Balanced(s: string)
  {
    ParenDepth(s) == 0 && forall k :: 0 <= k <= |s| ==> ParenDepth(s[..k]) >= 0
  }

  /** No name of the tree contains a parenthesis. */
  predicate ParenFreeNames(e: Expr)
  {
    forall n :: n in Names(e) ==> '(' !in n && ')' !in n
  }

  lemma ParenFreeDepth(s: string)
    requires '(' !in s && ')' !in s
    ensures Balanced(s)
  {
  }

  lemma BalancedConcat(s: string, t: string)
    requires Balanced(s) && Balanced(t)
    ensures Balanced(s + t)
  {
    forall k | 0 <= k <= |s + t| ensures ParenDepth((s + t)[..k]) >= 0 {
      if k <= |s| {
        assert (s + t)[..k] == s[..k];
      } else {
        assert (s + t)[..k] == s + t[..k - |s|];
      }
    }
  }

  lemma BalancedWrap(s: string)
    requires Balanced(s)
    ensures Balanced("(" + s + ")")
  {
    var w := "(" + s + ")";
    forall k | 0 <= k <= |w| ensures ParenDepth(w[..k]) >= 0 {
      if k == 0 {
        assert w[..k] == [];
      } else if k <= |s| + 1 {
        assert w[..k] == "(" + s[..k - 1];
      } else {
        assert w[..k] == w;
      }
    }
  }

  lemma BalancedJoin(s: string, t: string, wrap: bool)
    requires Balanced(s) && Balanced(t)
    ensures Balanced(if wrap then "(" + s + t + ")" else s + t)
  {
    BalancedConcat(s, t);
    if wrap {
      BalancedWrap(s + t);
      assert "(" + s + t + ")" == "(" + (s + t) + ")";
    }
  }

  /** The printed text is well bracketed whenever the names are free of
      parentheses. */
  lemma {:induction false} PrintBalanced(e: Expr)
    requires ParenFreeNames(e)
    ensures Balanced(Print(e))
  {
    match e
    case Var(n) =>
      assert n in Names(e);
      ParenFreeDepth(n);
    case App(f, a) =>
      PrintBalanced(f);
      PrintBalanced(a);
      BalancedJoin(Print(f), Print(a), a.Var?);
    case Abs(p, b) =>
      assert p in Names(e);
      ParenFreeDepth([Lambda] + p + ".");
      PrintBalanced(b);
      BalancedConcat([Lambda] + p + ".", Print(b));
  }

  /** The printed text is empty exactly for a variable with the empty name:
      an abstraction prints its marker, and an application prints either
      parentheses or an argument that is itself not empty. */
  lemma {:induction false} PrintEmpty(e: Expr)
    ensures Print(e) == [] <==> e == Var([])
  {
    match e
    case Var(_) =>
    case App(f, a) =>
      if !a.Var? {
        PrintEmpty(a);
      }
    case Abs(_, _) =>
  }

  /** The printer is not injective: an application whose argument is an
      abstraction prints without parentheses, so `x` applied to `λy.y`, all
      applied to `λz.z`, and `x` applied to `λy.(y applied to λz.z)` both
      print as `xλy.yλz.z`. */
  lemma PrintNotInjective()
    ensures App(App(Var("x"), Abs("y", Var("y"))), Abs("z", Var("z")))
         != App(Var("x"), Abs("y", App(Var("y"), Abs("z", Var("z")))))
    ensures Print(App(App(Var("x"), Abs("y", Var("y"))), Abs("z", Var("z"))))
         == Print(App(Var("x"), Abs("y", App(Var("y"), Abs("z", Var("z"))))))
  {
  }
}
