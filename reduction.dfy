/** Substitution and the one-pass beta-reduction step of `beta_reduction` in
    backend/main.py, and the step applied a fixed number of times. */
module Reduction {
  import opened Terms

  /** `_substitute(target, name, value)`: replaces the free occurrences of
      `name` by `value`. A binder equal to `name` stops the descent, and no
      binder is renamed, so free names of `value` may be captured. */
  function Subst(target: Expr, name: Name, value: Expr): Expr
  {
    match target
    case Var(n) => if n == name then value else target
    case App(f, a) => App(Subst(f, name, value), Subst(a, name, value))
    case Abs(p, b) => if p == name then target else Abs(p, Subst(b, name, value))
  }

  /** `beta_reduction(e)`: one top-down pass. A redex is contracted once,
      without reducing its argument first and without rescanning the result;
      any other application is reduced on both sides. */
  function Step(e: Expr): Expr
  {
    match e
    case Var(_) => e
    case App(f, a) =>
      if f.Abs? then Subst(f.body, f.p, a) else App(Step(f), Step(a))
    case Abs(p, b) => Abs(p, Step(b))
  }

  /** The step applied `n` times in a row, with no early exit. */
  function Iterate(e: Expr, n: nat): Expr
  {
    if n == 0 then e else Step(Iterate(e, n - 1))
  }

  // ---------------------------------------------------------------------
  // Substitution

  /** A variable becomes `value` when it is the substituted name, and is
      left as it is otherwise. */
  lemma SubstVar(n: Name, name: Name, value: Expr)
    ensures n == name ==> Subst(Var(n), name, value) == value
    ensures n != name ==> Subst(Var(n), name, value) == Var(n)
  {
  }

  /** A binder equal to the name shadows it: the abstraction comes back
      unchanged, body included. Any other binder is kept and only the body
      is substituted. */
  lemma SubstAbs(p: Name, b: Expr, name: Name, value: Expr)
    ensures p == name ==> Subst(Abs(p, b), name, value) == Abs(p, b)
    ensures p != name ==> Subst(Abs(p, b), name, value) == Abs(p, Subst(b, name, value))
  {
  }

  /** Substituting a name with no free occurrence changes nothing. */
  lemma {:induction false} SubstNotFree(t: Expr, name: Name, value: Expr)
    requires name !in FreeVars(t)
    ensures Subst(t, name, value) == t
  {
    match t
    case Var(_) =>
    case App(f, a) => SubstNotFree(f, name, value); SubstNotFree(a, name, value);
    case Abs(p, b) => if p != name { SubstNotFree(b, name, value); }
  }

  /** Substituting a name by the variable of that same name changes nothing. */
  lemma {:induction false} SubstSelf(t: Expr, name: Name)
    ensures Subst(t, name, Var(name)) == t
  {
    match t
    case Var(_) =>
    case App(f, a) => SubstSelf(f, name); SubstSelf(a, name);
    case Abs(p, b) => if p != name { SubstSelf(b, name); }
  }

  /** Every name of the result comes from the target or from the value. */
  lemma {:induction false} SubstNames(t: Expr, name: Name, value: Expr)
    ensures Names(Subst(t, name, value)) <= Names(t) + Names(value)
  {
    match t
    case Var(_) =>
    case App(f, a) => SubstNames(f, name, value); SubstNames(a, name, value);
    case Abs(p, b) => if p != name { SubstNames(b, name, value); }
  }

  /** The free names of the result are those of the target other than
      `name`, and those of the value. */
  lemma {:induction false} SubstFreeVars(t: Expr, name: Name, value: Expr)
    ensures FreeVars(Subst(t, name, value)) <= (FreeVars(t) - {name}) + FreeVars(value)
  {
    match t
    case Var(_) =>
    case App(f, a) => SubstFreeVars(f, name, value); SubstFreeVars(a, name, value);
    case Abs(p, b) => if p != name { SubstFreeVars(b, name, value); }
  }

  /** When no binder of the target is free in the value (nothing can be
      captured), the free names of the result are exactly the target's
      other free names, plus the value's when `name` occurred free. */
  lemma {:induction false} SubstFreeVarsExact(t: Expr, name: Name, value: Expr)
    requires Binders(t) !! FreeVars(value)
    ensures FreeVars(Subst(t, name, value))
         == (FreeVars(t) - {name}) + (if name in FreeVars(t) then FreeVars(value) else {})
  {
    match t
    case Var(_) =>
    case App(f, a) => SubstFreeVarsExact(f, name, value); SubstFreeVarsExact(a, name, value);
    case Abs(p, b) =>
      if p != name {
        SubstFreeVarsExact(b, name, value);
        assert p !in FreeVars(value);
      }
  }

  /** After substitution `name` is no longer free, unless the value has it. */
  lemma {:induction false} SubstEliminates(t: Expr, name: Name, value: Expr)
    requires name !in FreeVars(value)
    ensures name !in FreeVars(Subst(t, name, value))
  {
    match t
    case Var(_) =>
    case App(f, a) => SubstEliminates(f, name, value); SubstEliminates(a, name, value);
    case Abs(p, b) => if p != name { SubstEliminates(b, name, value); }
  }

  /** No renaming is done: substituting `y` for `x` under a binder `y`
      captures it, so a free `y` ends up bound. */
  lemma SubstCaptures()
    ensures Subst(Abs("y", Var("x")), "x", Var("y")) == Abs("y", Var("y"))
    ensures "y" in FreeVars(Var("y")) && "y" !in FreeVars(Abs("y", Var("y")))
  {
  }

  // ---------------------------------------------------------------------
  // The step

  /** Redex contraction: the body with the argument substituted for the
      parameter, the argument left unreduced. */
  lemma StepRedex(p: Name, b: Expr, a: Expr)
    ensures Step(App(Abs(p, b), a)) == Subst(b, p, a)
  {
  }

  /** A variable never changes; an abstraction keeps its binder; an
      application that is not a redex stays an application. */
  lemma StepKeepsShape(e: Expr)
    ensures e.Var? ==> Step(e) == e
    ensures e.Abs? ==> Step(e).Abs? && Step(e).p == e.p
    ensures e.App? && !IsRedex(e) ==> Step(e).App?
  {
  }

  /** The argument of a redex is passed on unreduced, and a redex that the
      substitution creates (here `x z` with `λy.y` put for `x`) is left for
      the next step. */
  lemma StepArgumentNotReduced()
    ensures Step(App(Abs("x", Var("x")), App(Abs("y", Var("y")), Var("z"))))
         == App(Abs("y", Var("y")), Var("z"))
    ensures Step(App(Abs("x", App(Var("x"), Var("z"))), Abs("y", Var("y"))))
         == App(Abs("y", Var("y")), Var("z"))
    ensures !NoRedex(Step(App(Abs("x", App(Var("x"), Var("z"))), Abs("y", Var("y")))))
  {
  }

  /** A tree in normal form is a fixed point of the step. */
  lemma {:induction false} StepNormalForm(e: Expr)
    requires NoRedex(e)
    ensures Step(e) == e
  {
    match e
    case Var(_) =>
    case App(f, a) => StepNormalForm(f); StepNormalForm(a);
    case Abs(_, b) => StepNormalForm(b);
  }

  /** The step introduces no free name. */
  lemma {:induction false} StepFreeVars(e: Expr)
    ensures FreeVars(Step(e)) <= FreeVars(e)
  {
    match e
    case Var(_) =>
    case App(f, a) =>
      if f.Abs? {
        SubstFreeVars(f.body, f.p, a);
      } else {
        StepFreeVars(f); StepFreeVars(a);
      }
    case Abs(_, b) => StepFreeVars(b);
  }

  /** The step introduces no name at all. */
  lemma {:induction false} StepNames(e: Expr)
    ensures Names(Step(e)) <= Names(e)
  {
    match e
    case Var(_) =>
    case App(f, a) =>
      if f.Abs? {
        SubstNames(f.body, f.p, a);
      } else {
        StepNames(f); StepNames(a);
      }
    case Abs(_, b) => StepNames(b);
  }

  // ---------------------------------------------------------------------
  // Iteration

  /** A tree in normal form is a fixed point of normalisation, whatever the
      step count. */
  lemma {:induction false} IterateNormalForm(e: Expr, n: nat)
    requires NoRedex(e)
    ensures Iterate(e, n) == e
  {
    if n > 0 {
      IterateNormalForm(e, n - 1);
      StepNormalForm(e);
    }
  }

  /** Running `m` steps and then `n` more is running `m + n` steps. */
  lemma {:induction false} IterateAdd(e: Expr, m: nat, n: nat)
    ensures Iterate(Iterate(e, m), n) == Iterate(e, m + n)
  {
    if n > 0 {
      IterateAdd(e, m, n - 1);
    }
  }

  /** Once normal form is reached, further steps are no-ops. */
  lemma IterateStable(e: Expr, m: nat, k: nat)
    requires NoRedex(Iterate(e, m))
    ensures Iterate(e, m + k) == Iterate(e, m)
  {
    IterateAdd(e, m, k);
    IterateNormalForm(Iterate(e, m), k);
  }

  /** Normalisation introduces no free name and no name at all. */
  lemma {:induction false} IterateNames(e: Expr, n: nat)
    ensures FreeVars(Iterate(e, n)) <= FreeVars(e)
    ensures Names(Iterate(e, n)) <= Names(e)
  {
    if n > 0 {
      IterateNames(e, n - 1);
      StepFreeVars(Iterate(e, n - 1));
      StepNames(Iterate(e, n - 1));
    }
  }

  /** The self-application `(λx.xx)(λx.xx)`, a tree with no normal form. */
  function Omega(): Expr
  {
    var w := Abs("x", App(Var("x"), Var("x")));
    App(w, w)
  }

  /** Divergence is bounded, not detected: Omega steps to itself, so every
      step count returns it, redex and all. */
  lemma {:induction false} OmegaDiverges(n: nat)
    ensures Step(Omega()) == Omega()
    ensures !NoRedex(Iterate(Omega(), n))
    ensures Iterate(Omega(), n) == Omega()
  {
    if n > 0 {
      OmegaDiverges(n - 1);
    }
  }
}
