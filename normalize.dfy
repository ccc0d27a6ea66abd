/** The normalisation loop of the `/evaluate` handler in backend/main.py:
    the step applied a fixed number of times, then the result printed. */
module Normalization {
  import opened Terms
  import opened Reduction
  import opened Printer

  /** The step budget of the `/evaluate` handler. */
  const EvaluateBudget: nat := 100

  /** Applies the step exactly `n` times, with no early exit. The result
      has no free name and no name the input lacks, and a tree already in
      normal form comes back unchanged. */
  method Normalize(e: Expr, n: nat) returns (r: Expr)
    ensures r == Iterate(e, n)
    ensures FreeVars(r) <= FreeVars(e) && Names(r) <= Names(e)
    ensures NoRedex(e) ==> r == e
  {
    r := e;
    for i := 0 to n
      invariant r == Iterate(e, i)
    {
      r := Step(r);
    }
    IterateNames(e, n);
    if NoRedex(e) {
      IterateNormalForm(e, n);
    }
  }

  /** The reduction part of the `/evaluate` handler: a hundred steps, then
      the text of the result. */
  method Evaluate(e: Expr) returns (text: string)
    ensures text == Print(Iterate(e, EvaluateBudget))
    ensures NoRedex(e) ==> text == Print(e)
  {
    var r := Normalize(e, EvaluateBudget);
    text := Print(r);
  }
}
