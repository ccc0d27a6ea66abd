/** `random_lambda_expression` of backend/main.py with its random draws
    passed in: the generator reads a sequence of decisions instead of
    calling `random.random()` and `random.choice`. */
module Generator {
  import opened Terms

  /** One decision of the generator. `Leaf(i)` makes a variable named by the
      `i`-th letter, `Node` an application, and `Bind(i)` an abstraction
      binding the `i`-th letter. At depth zero only a `Leaf` is drawn, since
      the source only picks a letter there. */
  datatype Choice = Leaf(i: nat) | Node | Bind(i: nat)

  /** Builds a tree of at most `depth` levels from the front of `draws`, and
      returns it with the draws it left unread. Fails when the draws run
      out, when a drawn index is outside `alphabet` (in particular when the
      alphabet is empty), or when a depth-zero draw is not a `Leaf`. As in
      the source, only `depth == 0` stops the descent; at a negative depth
      every branch descends until it draws a `Leaf`, so the tree is finite
      only because the draws are. */
  function Generate(depth: int, alphabet: seq<Name>, draws: seq<Choice>): (r: Option<(Expr, seq<Choice>)>)
    ensures r.Some? ==> |r.value.1| < |draws|
    decreases |draws|
  {
    if draws == [] then None
    else if depth == 0 then
      match draws[0]
      case Leaf(i) => if i < |alphabet| then Some((Var(alphabet[i]), draws[1..])) else None
      case _ => None
    else
      match draws[0]
      case Leaf(i) => if i < |alphabet| then Some((Var(alphabet[i]), draws[1..])) else None
      case Node =>
        (match Generate(depth - 1, alphabet, draws[1..])
         case None => None
         case Some((f, rest)) =>
           (match Generate(depth - 1, alphabet, rest)
            case None => None
            case Some((a, rest')) => Some((App(f, a), rest'))))
      case Bind(i) =>
        if i < |alphabet| then
          (match Generate(depth - 1, alphabet, draws[1..])
           case None => None
           case Some((b, rest)) => Some((Abs(alphabet[i], b), rest)))
        else None
  }

  /** Every name of `e` is a letter of `alphabet`. */
  predicate Over(e: Expr, alphabet: seq<Name>)
  {
    forall n :: n in Names(e) ==> n in alphabet
  }

  /** A generated tree has at most `depth` levels, takes every name from
      the alphabet, and is a variable at depth zero; the draws left unread
      are what follows the ones consumed. */
  lemma {:induction false} GenerateBounds(depth: int, alphabet: seq<Name>, draws: seq<Choice>)
    requires Generate(depth, alphabet, draws).Some?
    ensures var (e, rest) := Generate(depth, alphabet, draws).value;
      && rest == draws[|draws| - |rest|..]
      && Over(e, alphabet)
      && (depth >= 0 ==> Height(e) <= depth)
      && (depth == 0 ==> e.Var?)
    decreases |draws|
  {
    if depth != 0 {
      match draws[0]
      case Leaf(_) =>
      case Node =>
        var (f, mid) := Generate(depth - 1, alphabet, draws[1..]).value;
        GenerateBounds(depth - 1, alphabet, draws[1..]);
        GenerateBounds(depth - 1, alphabet, mid);
      case Bind(_) =>
        GenerateBounds(depth - 1, alphabet, draws[1..]);
    }
  }

  /** The draws that make the generator build `e`. */
  function Encode(e: Expr, alphabet: seq<Name>): seq<Choice>
    requires Over(e, alphabet)
  {
    match e
    case Var(n) => [Leaf(FirstIndex(alphabet, n))]
    case App(f, a) => [Node] + Encode(f, alphabet) + Encode(a, alphabet)
    case Abs(p, b) => [Bind(FirstIndex(alphabet, p))] + Encode(b, alphabet)
  }

  lemma GenerateNode(depth: int, alphabet: seq<Name>, tail: seq<Choice>, f: Expr, a: Expr, mid: seq<Choice>, rest: seq<Choice>)
    requires depth != 0
    requires Generate(depth - 1, alphabet, tail) == Some((f, mid))
    requires Generate(depth - 1, alphabet, mid) == Some((a, rest))
    ensures Generate(depth, alphabet, [Node] + tail) == Some((App(f, a), rest))
  {
    assert ([Node] + tail)[1..] == tail;
  }

  lemma GenerateBind(depth: int, alphabet: seq<Name>, i: nat, tail: seq<Choice>, b: Expr, rest: seq<Choice>)
    requires depth != 0 && i < |alphabet|
    requires Generate(depth - 1, alphabet, tail) == Some((b, rest))
    ensures Generate(depth, alphabet, [Bind(i)] + tail) == Some((Abs(alphabet[i], b), rest))
  {
    assert ([Bind(i)] + tail)[1..] == tail;
  }

  lemma GenerateLeaf(depth: int, alphabet: seq<Name>, i: nat, rest: seq<Choice>)
    requires i < |alphabet|
    ensures Generate(depth, alphabet, [Leaf(i)] + rest) == Some((Var(alphabet[i]), rest))
  {
    assert ([Leaf(i)] + rest)[1..] == rest;
  }

  /** Every tree of at most `depth` levels over `alphabet` can be generated:
      its encoding makes the generator build exactly it, and leaves the
      following draws unread. */
  lemma {:induction false} GenerateEncode(e: Expr, depth: int, alphabet: seq<Name>, rest: seq<Choice>)
    requires depth >= 0 && Height(e) <= depth
    requires Over(e, alphabet)
    ensures Generate(depth, alphabet, Encode(e, alphabet) + rest) == Some((e, rest))
  {
    match e
    case Var(n) =>
      GenerateLeaf(depth, alphabet, FirstIndex(alphabet, n), rest);
    case App(f, a) =>
      assert Over(f, alphabet) && Over(a, alphabet);
      var ef, ea := Encode(f, alphabet), Encode(a, alphabet);
      var tail := ef + (ea + rest);
      assert Encode(e, alphabet) + rest == [Node] + tail by {
        assert Encode(e, alphabet) == [Node] + ef + ea;
      }
      GenerateEncode(f, depth - 1, alphabet, ea + rest);
      GenerateEncode(a, depth - 1, alphabet, rest);
      GenerateNode(depth, alphabet, tail, f, a, ea + rest, rest);
    case Abs(p, b) =>
      assert p in Names(e) && Over(b, alphabet);
      var eb := Encode(b, alphabet);
      assert Encode(e, alphabet) + rest == [Bind(FirstIndex(alphabet, p))] + (eb + rest);
      GenerateEncode(b, depth - 1, alphabet, rest);
      GenerateBind(depth, alphabet, FirstIndex(alphabet, p), eb + rest, b, rest);
  }

  /** At depth zero the generator makes a variable named by the drawn
      letter, and an application or abstraction draw fails. */
  lemma GenerateDepthZero(alphabet: seq<Name>, draws: seq<Choice>)
    ensures forall i: nat :: i < |alphabet| ==>
              Generate(0, alphabet, [Leaf(i)] + draws) == Some((Var(alphabet[i]), draws))
    ensures Generate(0, alphabet, [Node] + draws) == None
    ensures forall i: nat :: Generate(0, alphabet, [Bind(i)] + draws) == None
  {
    forall i: nat | i < |alphabet|
      ensures Generate(0, alphabet, [Leaf(i)] + draws) == Some((Var(alphabet[i]), draws))
    {
      GenerateLeaf(0, alphabet, i, draws);
    }
  }

  /** With an empty alphabet generation always fails, as `random.choice([])`
      raises. */
  lemma {:induction false} GenerateEmptyAlphabet(depth: int, draws: seq<Choice>)
    ensures Generate(depth, [], draws) == None
    decreases |draws|
  {
    if draws != [] && depth != 0 && draws[0].Node? {
      GenerateEmptyAlphabet(depth - 1, draws[1..]);
    }
  }
}
