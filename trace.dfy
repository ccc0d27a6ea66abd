/** `get_beta_steps` of backend/main.py: the texts of the first few steps
    of a reduction, with every repeated text dropped. */
module Trace {
  import opened Terms
  import opened Reduction
  import opened Printer

  /** No element occurs twice. */
  predicate NoDuplicates<T(==)>(s: seq<T>)
  {
    forall i, j :: 0 <= i < j < |s| ==> s[i] != s[j]
  }

  /** Scans `s` from the left and keeps an element only when it was not kept
      before: the first occurrence of each element, in order. */
  function Dedup<T(==)>(s: seq<T>): seq<T>
  {
    if s == [] then []
    else
      var kept := Dedup(s[..|s| - 1]);
      if s[|s| - 1] in kept then kept else kept + [s[|s| - 1]]
  }

  /** The texts after one, two, ..., `n` steps. */
  function Rendered(e: Expr, n: nat): (r: seq<string>)
    ensures |r| == n
    ensures forall i :: 0 <= i < n ==> r[i] == Print(Iterate(e, i + 1))
  {
    if n == 0 then [] else Rendered(e, n - 1) + [Print(Iterate(e, n))]
  }

  // ---------------------------------------------------------------------
  // What the deduplication keeps

  /** The kept elements are pairwise distinct. */
  lemma {:induction false} DedupNoDuplicates<T>(s: seq<T>)
    ensures NoDuplicates(Dedup(s))
  {
    if s != [] {
      DedupNoDuplicates(s[..|s| - 1]);
    }
  }

  /** An element is kept exactly when it occurs in the input. */
  lemma {:induction false} DedupMembers<T>(s: seq<T>)
    ensures forall x :: x in Dedup(s) <==> x in s
  {
    if s != [] {
      var init := s[..|s| - 1];
      DedupMembers(init);
      assert s == init + [s[|s| - 1]];
    }
  }

  /** Never longer than the input, and not empty when the input is not. */
  lemma {:induction false} DedupLength<T>(s: seq<T>)
    ensures |Dedup(s)| <= |s|
    ensures |s| >= 1 ==> |Dedup(s)| >= 1
  {
    if s != [] {
      DedupLength(s[..|s| - 1]);
    }
  }

  lemma FirstIndexAppend<T>(s: seq<T>, y: T, x: T)
    requires x in s
    ensures x in s + [y] && FirstIndex(s + [y], x) == FirstIndex(s, x)
  {
    var k := FirstIndex(s, x);
    assert (s + [y])[k] == x;
  }

  /** The kept elements stand in the order of their first occurrences. */
  lemma {:induction false} DedupOrder<T>(s: seq<T>)
    ensures forall x :: x in Dedup(s) ==> x in s
    ensures forall i, j :: 0 <= i < j < |Dedup(s)| ==>
              FirstIndex(s, Dedup(s)[i]) < FirstIndex(s, Dedup(s)[j])
  {
    DedupMembers(s);
    if s != [] {
      var init, last := s[..|s| - 1], s[|s| - 1];
      assert s == init + [last];
      DedupOrder(init);
      DedupMembers(init);
      var kept := Dedup(init);
      forall i, j | 0 <= i < j < |Dedup(s)|
        ensures FirstIndex(s, Dedup(s)[i]) < FirstIndex(s, Dedup(s)[j])
      {
        FirstIndexAppend(init, last, kept[i]);
        if j < |kept| {
          FirstIndexAppend(init, last, kept[j]);
        } else {
          assert Dedup(s)[j] == last && last !in init;
          assert FirstIndex(init, kept[i]) < |init|;
        }
      }
    }
  }

  /** A sequence without repeats is kept whole. */
  lemma {:induction false} DedupDistinct<T>(s: seq<T>)
    requires NoDuplicates(s)
    ensures Dedup(s) == s
  {
    if s != [] {
      var init := s[..|s| - 1];
      DedupDistinct(init);
      assert s == init + [s[|s| - 1]];
    }
  }

  /** Pairwise distinct, the input's members exactly, in first-occurrence
      order. */
  predicate KeepsFirstOccurrences<T(==)>(s: seq<T>, r: seq<T>)
  {
    && NoDuplicates(r)
    && (forall i :: 0 <= i < |r| ==> r[i] in s)
    && (forall i :: 0 <= i < |s| ==> s[i] in r)
    && (forall i, j :: 0 <= i < j < |r| ==> FirstIndex(s, r[i]) < FirstIndex(s, r[j]))
  }

  /** Two lists in first-occurrence order with the same members start
      alike. */
  lemma FirstOccurrencesHead<T>(s: seq<T>, r: seq<T>, d: seq<T>)
    requires r != [] && d != []
    requires r[0] in d && d[0] in r
    requires forall x :: x in r ==> x in s
    requires forall x :: x in d ==> x in s
    requires forall i, j :: 0 <= i < j < |r| ==> FirstIndex(s, r[i]) < FirstIndex(s, r[j])
    requires forall i, j :: 0 <= i < j < |d| ==> FirstIndex(s, d[i]) < FirstIndex(s, d[j])
    ensures r[0] == d[0]
  {
  }

  /** Dropping a common head from two duplicate-free lists with the same
      members leaves lists with the same members. */
  lemma SameMembersTail<T>(r: seq<T>, d: seq<T>)
    requires r != [] && d != [] && r[0] == d[0]
    requires NoDuplicates(r) && NoDuplicates(d)
    requires forall x :: x in r <==> x in d
    ensures forall x :: x in r[1..] <==> x in d[1..]
  {
    forall x ensures x in r[1..] ==> x in d[1..] {
      if x in r[1..] {
        var k :| 1 <= k < |r| && r[k] == x;
        assert x in d && x != d[0];
        var m :| 0 <= m < |d| && d[m] == x;
        assert d[1..][m - 1] == x;
      }
    }
    forall x ensures x in d[1..] ==> x in r[1..] {
      if x in d[1..] {
        var k :| 1 <= k < |d| && d[k] == x;
        assert x in r && x != r[0];
        var m :| 0 <= m < |r| && r[m] == x;
        assert r[1..][m - 1] == x;
      }
    }
  }

  lemma {:induction false} FirstOccurrencesUnique<T>(s: seq<T>, r: seq<T>, d: seq<T>)
    requires NoDuplicates(r) && NoDuplicates(d)
    requires forall x :: x in r <==> x in d
    requires forall x :: x in r ==> x in s
    requires forall i, j :: 0 <= i < j < |r| ==> FirstIndex(s, r[i]) < FirstIndex(s, r[j])
    requires forall i, j :: 0 <= i < j < |d| ==> FirstIndex(s, d[i]) < FirstIndex(s, d[j])
    ensures r == d
    decreases |r|
  {
    assert r != [] ==> r[0] in d;
    assert d != [] ==> d[0] in r;
    if r != [] {
      FirstOccurrencesHead(s, r, d);
      SameMembersTail(r, d);
      FirstOccurrencesUnique(s, r[1..], d[1..]);
    }
  }

  /** The deduplication is the one sequence of distinct elements holding the
      input's members exactly, in the order of their first occurrences. */
  lemma DedupCharacterised<T>(s: seq<T>, r: seq<T>)
    ensures KeepsFirstOccurrences(s, Dedup(s))
    ensures KeepsFirstOccurrences(s, r) ==> r == Dedup(s)
  {
    DedupNoDuplicates(s);
    DedupMembers(s);
    DedupOrder(s);
    if KeepsFirstOccurrences(s, r) {
      FirstOccurrencesUnique(s, r, Dedup(s));
    }
  }

  /** Deduplication is global: a repeat is dropped even when it is not next
      to its first occurrence. */
  lemma DedupExample()
    ensures Dedup(["a", "b", "a", "c"]) == ["a", "b", "c"]
  {
    assert ["a", "b", "a", "c"][..3] == ["a", "b", "a"];
    assert ["a", "b", "a"][..2] == ["a", "b"];
    assert ["a", "b"][..1] == ["a"];
  }

  // ---------------------------------------------------------------------
  // The trace

  /** `get_beta_steps(e, steps)`: applies the step `steps` times (none when
      `steps` is not positive), prints each result, then keeps the first
      occurrence of each text. */
  method BetaSteps(e: Expr, steps: int) returns (unique: seq<string>)
    ensures unique == Dedup(Rendered(e, if steps < 0 then 0 else steps))
    ensures NoDuplicates(unique)
    ensures |unique| <= (if steps < 0 then 0 else steps)
    ensures steps >= 1 ==> |unique| >= 1
    ensures forall t :: t in unique <==> t in Rendered(e, if steps < 0 then 0 else steps)
    ensures KeepsFirstOccurrences(Rendered(e, if steps < 0 then 0 else steps), unique)
  {
    var n := if steps < 0 then 0 else steps;
    var expression := e;
    var expressions: seq<string> := [];
    for i := 0 to n
      invariant expression == Iterate(e, i)
      invariant expressions == Rendered(e, i)
    {
      expression := Step(expression);
      expressions := expressions + [Print(expression)];
    }
    unique := [];
    for i := 0 to |expressions|
      invariant unique == Dedup(expressions[..i])
    {
      assert expressions[..i + 1][..i] == expressions[..i];
      if expressions[i] !in unique {
        unique := unique + [expressions[i]];
      }
    }
    assert expressions[..|expressions|] == expressions;
    DedupLength(expressions);
    DedupCharacterised(expressions, unique);
  }
}
