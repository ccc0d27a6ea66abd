/** A reference definition for the one-pass step of backend/main.py:
    single-redex contraction at an explicit position, using the same
    capture-permitting substitution (`Subst`). The step is shown to be the
    contraction, left to right, of the outermost redexes of the tree. Since
    `Subst` does not rename binders, this relates the step to contraction
    with that substitution, not to capture-avoiding beta-reduction. */
module Contraction {
  import opened Terms
  import opened Reduction

  /** Which child to descend into. */
  datatype Dir = Fun | Arg | Body

  /** A position in a tree: the directions from the root. */
  type Path = seq<Dir>

  /** Contracts the single redex at `path`, or fails when there is none. */
  function ContractAt(e: Expr, path: Path): Option<Expr>
    decreases path
  {
    if path == [] then
      if IsRedex(e) then Some(Subst(e.f.body, e.f.p, e.a)) else None
    else
      match (path[0], e)
      case (Fun, App(f, a)) =>
        (match ContractAt(f, path[1..])
         case Some(f') => Some(App(f', a))
         case None => None)
      case (Arg, App(f, a)) =>
        (match ContractAt(a, path[1..])
         case Some(a') => Some(App(f, a'))
         case None => None)
      case (Body, Abs(p, b)) =>
        (match ContractAt(b, path[1..])
         case Some(b') => Some(Abs(p, b'))
         case None => None)
      case _ => None
  }

  /** Contracts the redexes at `paths`, one after the other. */
  function ContractAll(e: Expr, paths: seq<Path>): Option<Expr>
    decreases |paths|
  {
    if paths == [] then Some(e)
    else
      match ContractAt(e, paths[0])
      case Some(e') => ContractAll(e', paths[1..])
      case None => None
  }

  /** Every path, one level deeper through `d`. */
  function Under(d: Dir, ps: seq<Path>): (r: seq<Path>)
    ensures |r| == |ps|
    ensures forall i :: 0 <= i < |ps| ==> r[i] == [d] + ps[i]
  {
    seq(|ps|, i requires 0 <= i < |ps| => [d] + ps[i])
  }

  /** The redexes the step contracts: every redex not inside another one,
      in left-to-right order. */
  function RedexPaths(e: Expr): seq<Path>
  {
    match e
    case Var(_) => []
    case App(f, a) =>
      if f.Abs? then [[]] else Under(Fun, RedexPaths(f)) + Under(Arg, RedexPaths(a))
    case Abs(_, b) => Under(Body, RedexPaths(b))
  }

  lemma {:induction false} ContractAllAppend(e: Expr, ps: seq<Path>, qs: seq<Path>)
    ensures ContractAll(e, ps + qs)
         == (match ContractAll(e, ps) case Some(x) => ContractAll(x, qs) case None => None)
    decreases |ps|
  {
    if ps == [] {
      assert ps + qs == qs;
    } else {
      assert (ps + qs)[0] == ps[0];
      assert (ps + qs)[1..] == ps[1..] + qs;
      match ContractAt(e, ps[0])
      case Some(e') => ContractAllAppend(e', ps[1..], qs);
      case None =>
    }
  }

  lemma {:induction false} ContractAllFun(f: Expr, a: Expr, ps: seq<Path>)
    ensures ContractAll(App(f, a), Under(Fun, ps))
         == (match ContractAll(f, ps) case Some(f') => Some(App(f', a)) case None => None)
    decreases |ps|
  {
    if ps != [] {
      var u := Under(Fun, ps);
      assert u[0][1..] == ps[0];
      assert u[1..] == Under(Fun, ps[1..]);
      match ContractAt(f, ps[0])
      case Some(f') => ContractAllFun(f', a, ps[1..]);
      case None =>
    }
  }

  lemma {:induction false} ContractAllArg(f: Expr, a: Expr, ps: seq<Path>)
    ensures ContractAll(App(f, a), Under(Arg, ps))
         == (match ContractAll(a, ps) case Some(a') => Some(App(f, a')) case None => None)
    decreases |ps|
  {
    if ps != [] {
      var u := Under(Arg, ps);
      assert u[0][1..] == ps[0];
      assert u[1..] == Under(Arg, ps[1..]);
      match ContractAt(a, ps[0])
      case Some(a') => ContractAllArg(f, a', ps[1..]);
      case None =>
    }
  }

  lemma {:induction false} ContractAllBody(p: Name, b: Expr, ps: seq<Path>)
    ensures ContractAll(Abs(p, b), Under(Body, ps))
         == (match ContractAll(b, ps) case Some(b') => Some(Abs(p, b')) case None => None)
    decreases |ps|
  {
    if ps != [] {
      var u := Under(Body, ps);
      assert u[0][1..] == ps[0];
      assert u[1..] == Under(Body, ps[1..]);
      match ContractAt(b, ps[0])
      case Some(b') => ContractAllBody(p, b', ps[1..]);
      case None =>
    }
  }

  /** One step is exactly the contraction, one by one and left to right, of
      the outermost redexes, each at its own position and with `Subst`. */
  lemma {:induction false} StepIsContractions(e: Expr)
    ensures ContractAll(e, RedexPaths(e)) == Some(Step(e))
  {
    match e
    case Var(_) =>
    case App(f, a) =>
      if f.Abs? {
        var only: seq<Path> := [[]];
        assert only[1..] == [];
      } else {
        StepIsContractions(f);
        StepIsContractions(a);
        ContractAllAppend(e, Under(Fun, RedexPaths(f)), Under(Arg, RedexPaths(a)));
        ContractAllFun(f, a, RedexPaths(f));
        ContractAllArg(Step(f), a, RedexPaths(a));
      }
    case Abs(p, b) =>
      StepIsContractions(b);
      ContractAllBody(p, b, RedexPaths(b));
  }

  /** The step contracts nothing exactly when the tree is in normal form. */
  lemma {:induction false} RedexPathsEmpty(e: Expr)
    ensures RedexPaths(e) == [] <==> NoRedex(e)
  {
    match e
    case Var(_) =>
    case App(f, a) =>
      if !f.Abs? {
        RedexPathsEmpty(f);
        RedexPathsEmpty(a);
      }
    case Abs(_, b) => RedexPathsEmpty(b);
  }

  /** `n` steps are some sequence of single-redex contractions with `Subst`. */
  lemma {:induction false} IterateIsContractions(e: Expr, n: nat)
    ensures exists ps: seq<Path> :: ContractAll(e, ps) == Some(Iterate(e, n))
  {
    if n == 0 {
      assert ContractAll(e, []) == Some(e);
    } else {
      IterateIsContractions(e, n - 1);
      var ps: seq<Path> :| ContractAll(e, ps) == Some(Iterate(e, n - 1));
      StepIsContractions(Iterate(e, n - 1));
      ContractAllAppend(e, ps, RedexPaths(Iterate(e, n - 1)));
      assert ContractAll(e, ps + RedexPaths(Iterate(e, n - 1))) == Some(Iterate(e, n));
    }
  }
}
