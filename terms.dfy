/** The expression model of the lambda-calculus engine: the three node kinds
    `Variable`, `Application` and `Abstraction` of backend/main.py, and the
    structural queries the rest of the model states its properties with. */
module Terms {

  datatype Option<T> = None | Some(value: T)

  /** A variable or binder name. The engine stores names as Python strings. */
  type Name = string

  /** `Variable(value)`, `Application(exp1, exp2)` and `Abstraction(value, exp)`. */
  datatype Expr =
    | Var(name: Name)
    | App(f: Expr, a: Expr)
    | Abs(p: Name, body: Expr)

  /** The position of the first occurrence of `x` in `s`. */
  function FirstIndex<T(==)>(s: seq<T>, x: T): (k: nat)
    requires x in s
    ensures k < |s| && s[k] == x && x !in s[..k]
  {
    if s[0] == x then 0 else 1 + FirstIndex(s[1..], x)
  }

  /** The names that occur free: not under a binder of the same name. */
  function FreeVars(e: Expr): set<Name>
  {
    match e
    case Var(n) => {n}
    case App(f, a) => FreeVars(f) + FreeVars(a)
    case Abs(p, b) => FreeVars(b) - {p}
  }

  /** Every name in the tree, whether it is a variable or a binder. */
  function Names(e: Expr): set<Name>
  {
    match e
    case Var(n) => {n}
    case App(f, a) => Names(f) + Names(a)
    case Abs(p, b) => {p} + Names(b)
  }

  /** The names bound by some abstraction of the tree. */
  function Binders(e: Expr): set<Name>
  {
    match e
    case Var(_) => {}
    case App(f, a) => Binders(f) + Binders(a)
    case Abs(p, b) => {p} + Binders(b)
  }

  /** Number of nodes on the longest path from the root to a variable, minus one. */
  function Height(e: Expr): nat
  {
    match e
    case Var(_) => 0
    case App(f, a) => 1 + (if Height(f) < Height(a) then Height(a) else Height(f))
    case Abs(_, b) => 1 + Height(b)
  }

  /** A redex: an application whose function position is an abstraction. */
  predicate IsRedex(e: Expr)
  {
    e.App? && e.f.Abs?
  }

  /** No node of the tree is a redex (the tree is in normal form). */
  predicate NoRedex(e: Expr)
  {
    match e
    case Var(_) => true
    case App(f, a) => !f.Abs? && NoRedex(f) && NoRedex(a)
    case Abs(_, b) => NoRedex(b)
  }
}
