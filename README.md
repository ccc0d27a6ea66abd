# Lambda-calculus engine: a Dafny model

This project models the expression engine of the lambda-breakout backend
(`backend/main.py`). That engine is an untyped lambda calculus with three node
kinds: `Variable`, `Application` and `Abstraction`. The model covers these
parts of the engine:

- substitution without renaming (`_substitute`);
- the one-pass beta-reduction step (`beta_reduction`);
- the hundred-step normalisation loop of the `/evaluate` handler;
- the printer (`__str__`);
- the reduction trace with duplicates removed (`get_beta_steps`);
- the depth-bounded random generator (`random_lambda_expression`), with its
  random draws passed in as data.

Files and modules:

- `terms.dfy` (`Terms`): the `Expr` datatype, plus free names, all names,
  binders, height, and the normal-form predicate `NoRedex`.
- `printer.dfy` (`Printer`): `Print` and its properties.
- `reduction.dfy` (`Reduction`): `Subst`, `Step`, `Iterate` (the step run
  `n` times), and their properties.
- `contraction.dfy` (`Contraction`): a reference definition of single-redex
  contraction at an explicit position, using the same capture-permitting
  substitution (`Subst`). The model proves that `Step` is a sequence of such
  contractions. Because `Subst` does not rename binders, this is not a
  soundness result for capture-avoiding beta-reduction.
- `normalize.dfy` (`Normalization`): the normalisation loop as a method.
- `trace.dfy` (`Trace`): `get_beta_steps` as a method with two loops. It is
  proved against `Dedup` and `Rendered`.
- `generator.dfy` (`Generator`): the generator. It reads a sequence of
  `Choice` decisions where the source calls `random`.

Notes:

- Names are arbitrary strings in the source (an abstraction's binder is
  whatever text precedes its `.`), so the model uses `string`.
- In the generator, `random.random()` and `random.choice` become explicit
  `Choice` values. `Leaf(i)` is the "variable" outcome, `Node` the
  "application" outcome and `Bind(i)` the "abstraction" outcome, where `i`
  indexes the alphabet.
- Some draw sequences cannot come from the source's random source. These are
  an exhausted draw sequence, an index outside the alphabet, and a non-`Leaf`
  draw at depth zero. For them the model returns `None`. With an empty
  alphabet, generation always fails, as `random.choice([])` raises in Python.
- The model keeps the source's negative-depth behaviour. Only `depth == 0`
  stops the descent, so at a negative depth every branch goes on until it
  draws a `Leaf`; an application needs both of its branches to do so. The
  model's trees are finite only because its draw sequences are.
- The model keeps the source's handling of a non-positive step count in
  `get_beta_steps`: `range(steps)` is empty, so the result is the empty list.

## Model

| member | source | states |
|---|---|---|
| Reduction.SubstVar | backend/main.py:110-114 | A variable becomes the value exactly when its name is the substituted name; otherwise it is returned unchanged |
| Reduction.SubstAbs | backend/main.py:117-121 | An abstraction whose binder is the substituted name is returned unchanged, body included; any other binder is kept and only the body is substituted |
| Reduction.SubstNotFree | backend/main.py:109-121 | Substituting a name with no free occurrence in the target returns the target itself |
| Reduction.SubstSelf | backend/main.py:109-121 | Substituting a name by the variable of that same name returns the target itself |
| Reduction.SubstNames | backend/main.py:109-121 | Every name in the result occurs in the target or in the value |
| Reduction.SubstFreeVars | backend/main.py:109-121 | The free names of the result are among the target's free names other than the substituted one, plus the value's free names |
| Reduction.SubstFreeVarsExact | backend/main.py:109-121 | When no binder of the target is free in the value, the result's free names are exactly the target's others, plus the value's if the name occurred free |
| Reduction.SubstEliminates | backend/main.py:109-121 | If the value does not mention the name freely, the name has no free occurrence left in the result |
| Reduction.SubstCaptures | backend/main.py:117-121 | No alpha-renaming: substituting `y` for `x` under a binder `y` captures the free `y` |
| Reduction.StepRedex | backend/main.py:125-127 | A redex `(λp.b) a` steps to `b` with `a` substituted for `p`, and `a` is not reduced first |
| Reduction.StepKeepsShape | backend/main.py:123-131 | A step never changes a variable, keeps an abstraction's binder, and keeps an application that is not a redex an application |
| Reduction.StepArgumentNotReduced | backend/main.py:126-127 | The argument of a contracted redex is passed unreduced, and a redex that the substitution creates (`(λx.x z)(λy.y)` steps to `(λy.y) z`) survives the step |
| Reduction.StepNormalForm | backend/main.py:123-131 | On a tree with no redex, the step is the identity |
| Reduction.StepFreeVars | backend/main.py:108-131 | A step introduces no free name |
| Reduction.StepNames | backend/main.py:108-131 | A step introduces no name at all |
| Reduction.IterateNormalForm | backend/main.py:166-167 | A tree with no redex is a fixed point of normalisation for any step count |
| Reduction.IterateAdd | backend/main.py:166-167 | `m` steps followed by `n` steps equal `m + n` steps |
| Reduction.IterateStable | backend/main.py:166-167 | Once normal form is reached, the remaining iterations change nothing |
| Reduction.IterateNames | backend/main.py:166-167 | Normalisation introduces no free name and no name |
| Reduction.OmegaDiverges | backend/main.py:166-167 | `(λx.xx)(λx.xx)` steps to itself, so any step budget returns it still holding a redex: divergence is bounded, not detected |
| Contraction.StepIsContractions | backend/main.py:123-131 | A step equals contracting the tree's outermost redexes one at a time, left to right, each contracted at its own position with the capture-permitting `Subst` |
| Contraction.RedexPathsEmpty | backend/main.py:123-131 | The step contracts no redex exactly when the tree is in normal form |
| Contraction.IterateIsContractions | backend/main.py:166-167 | Any number of steps is reachable by a sequence of single-redex contractions at explicit positions, using the capture-permitting `Subst` |
| Normalization.Normalize | backend/main.py:166-167 | The loop applies the step exactly `n` times; the result adds no name, and a normal-form input comes back unchanged |
| Normalization.Evaluate | backend/main.py:162-168 | The handler's answer is the text of the tree after 100 steps, and the input's own text when it has no redex |
| Printer.PrintRules | backend/main.py:38-67 | A variable prints as its name, an abstraction as `λ` + binder + `.` + body, and an application as function then argument, in parentheses exactly when the argument is a variable |
| Printer.PrintBalanced | backend/main.py:38-67 | When no name contains a parenthesis, the printed text is well bracketed |
| Printer.PrintEmpty | backend/main.py:38-67 | The printed text is empty exactly for a variable whose name is empty |
| Printer.PrintNotInjective | backend/main.py:38-39 | Two different trees print as the same text, because an argument that is not a variable is printed without parentheses |
| Trace.Rendered | backend/main.py:152-155 | The collected list has one entry per step, and entry `i` is the text of the tree after `i + 1` steps |
| Trace.DedupNoDuplicates | backend/main.py:156-159 | The kept texts are pairwise distinct |
| Trace.DedupMembers | backend/main.py:156-159 | A text is kept exactly when it occurs among the collected texts |
| Trace.DedupLength | backend/main.py:156-159 | The kept list is no longer than the collected one, and is not empty when that one is not |
| Trace.DedupOrder | backend/main.py:156-159 | The kept texts stand in the order of their first occurrences |
| Trace.DedupDistinct | backend/main.py:156-159 | A list with no repeats is kept whole |
| Trace.DedupCharacterised | backend/main.py:156-159 | The kept list is the only list that is duplicate-free, holds exactly the collected texts, and follows their first-occurrence order |
| Trace.DedupExample | backend/main.py:156-159 | Repeats are dropped globally, not only when adjacent: `a b a c` keeps `a b c` |
| Trace.BetaSteps | backend/main.py:151-160 | The result is the duplicate-free, first-occurrence-order list of the texts after 1..`steps` steps: no repeats, at most `steps` entries, at least one when `steps >= 1`, and exactly the rendered texts |
| Generator.Generate | backend/main.py:139-149 | Every successful generation consumes at least one draw, so generation ends even at a negative depth, where the source never reaches its `depth == 0` stop |
| Generator.GenerateBounds | backend/main.py:139-149 | A generated tree has height at most the depth, takes every name from the alphabet, and is a variable at depth zero; the unread draws are exactly what follows the consumed ones |
| Generator.GenerateLeaf | backend/main.py:140-144 | A letter draw yields the variable named by that letter, at any depth |
| Generator.GenerateNode | backend/main.py:145-146 | At a non-zero depth an application draw yields the application of two trees generated one level shallower, in order |
| Generator.GenerateBind | backend/main.py:147-149 | At a non-zero depth an abstraction draw yields an abstraction binding the drawn letter over a tree one level shallower |
| Generator.GenerateDepthZero | backend/main.py:140-141 | At depth zero a letter draw yields that letter's variable, and an application or abstraction draw fails |
| Generator.GenerateEmptyAlphabet | backend/main.py:139-149 | With an empty alphabet generation always fails, as `random.choice` does on an empty list |
| Generator.GenerateEncode | backend/main.py:139-149 | Every tree of height at most the depth over the alphabet is generated by some draw sequence, which consumes exactly its encoding |

## Left out

- FastAPI application, CORS middleware and the HTTP route handlers (backend/main.py:1-16, 162-177): transport only. The `/evaluate` handler is modelled from the parsed tree onwards, as `Normalization.Evaluate`.
- `preform_bidmas` (backend/main.py:72-81): it rewrites the text into a Python literal and calls `eval`, a foreign evaluator the model cannot reproduce.
- `parse_expression` (backend/main.py:84-106): it consumes the untyped nested lists that `eval` produces at line 79, so its input cannot be stated without modelling Python's evaluator. The model starts from trees.
- The probabilities of the generator (thresholds 0.3 and 0.8) and the uniform letter choice: floating-point randomness, replaced by explicit `Choice` draws.
- The retry loop of the `/random` handler (backend/main.py:174-176): it is unbounded and driven by randomness.
- The `evaluate` methods of the node classes, the `free_variables` generator and the `__repr__` methods: no core path uses them.
- `src/main.ts` is not part of this model: it is front-end wiring.
- Object identity: the source sometimes returns the very node it was given, for example an unchanged variable or a shadowing abstraction. Datatype values in the model have no identity, so that sharing is not captured.
- Python's recursion limit: `random_lambda_expression`, `beta_reduction` and `__str__` recurse once per tree level, so a deep enough tree raises `RecursionError` in the source. At a negative depth the source's generator may recurse without end. The model has unbounded recursion and finite draw sequences, so it shows neither failure.
