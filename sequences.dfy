/** Order-preserving selection, distinctness and counting over sequences. */
module Sequences {

  /** `a` is obtained from `b` by deleting elements, so `b`'s relative order is kept. */
  predicate Subsequence<T(==)>(a: seq<T>, b: seq<T>)
    decreases |b|
  {
    a == [] ||
    (b != [] &&
     ((a[|a| - 1] == b[|b| - 1] && Subsequence(a[..|a| - 1], b[..|b| - 1])) ||
      Subsequence(a, b[..|b| - 1])))
  }

  /** No element occurs twice. */
  predicate Distinct<T(==)>(s: seq<T>)
  {
    forall i, j :: 0 <= i < j < |s| ==> s[i] != s[j]
  }

  /** Number of occurrences of `x` in `s`. */
  function Count<T(==)>(s: seq<T>, x: T): (n: nat)
    ensures n <= |s|
    ensures n == 0 <==> x !in s
  {
    if s == [] then 0
    else Count(s[..|s| - 1], x) + (if s[|s| - 1] == x then 1 else 0)
  }

  /** A subsequence of a subsequence is a subsequence. */
  lemma {:induction false} SubsequenceTransitive<T>(a: seq<T>, b: seq<T>, c: seq<T>)
    requires Subsequence(a, b) && Subsequence(b, c)
    ensures Subsequence(a, c)
    decreases |c|
  {
    if a != [] {
      var c' := c[..|c| - 1];
      if Subsequence(b, c') {
        SubsequenceTransitive(a, b, c');
      } else {
        var b' := b[..|b| - 1];
        assert b[|b| - 1] == c[|c| - 1] && Subsequence(b', c');
        if a[|a| - 1] == b[|b| - 1] && Subsequence(a[..|a| - 1], b') {
          SubsequenceTransitive(a[..|a| - 1], b', c');
        } else {
          SubsequenceTransitive(a, b', c');
        }
      }
    }
  }

  /** Extending the sequence keeps a subsequence; taking the new element too extends both. */
  lemma SubsequenceExtend<T>(a: seq<T>, b: seq<T>, x: T)
    requires Subsequence(a, b)
    ensures Subsequence(a, b + [x]) && Subsequence(a + [x], b + [x])
  {
    assert (b + [x])[..|b|] == b;
    assert (a + [x])[..|a|] == a;
  }

  /** The elements of `s` in order of first appearance, each once (later repeats dropped). */
  function FirstOccurrences<T(==,!new)>(s: seq<T>): (r: seq<T>)
    ensures forall x :: x in r <==> x in s
    ensures Distinct(r)
  {
    if s == [] then []
    else
      var front := FirstOccurrences(s[..|s| - 1]);
      var last := s[|s| - 1];
      assert s == s[..|s| - 1] + [last];
      if last in front then front else front + [last]
  }

  /** A sequence without repeats is its own first occurrences. */
  lemma {:induction false} FirstOccurrencesOfDistinct<T(!new)>(s: seq<T>)
    requires Distinct(s)
    ensures FirstOccurrences(s) == s
  {
    if s != [] {
      FirstOccurrencesOfDistinct(s[..|s| - 1]);
      assert s[|s| - 1] !in s[..|s| - 1];
    }
  }

  /** One more element: new ones are appended, repeats add nothing. */
  lemma FirstOccurrencesSnoc<T(!new)>(s: seq<T>, l: T)
    ensures FirstOccurrences(s + [l]) ==
      if l in s then FirstOccurrences(s) else FirstOccurrences(s) + [l]
  {
    assert (s + [l])[..|s|] == s;
  }

  /** Sequences with the same first occurrences still have them after the same element is added. */
  lemma FirstOccurrencesSameStep<T(!new)>(a: seq<T>, b: seq<T>, l: T)
    requires FirstOccurrences(a) == FirstOccurrences(b)
    ensures FirstOccurrences(a + [l]) == FirstOccurrences(b + [l])
  {
    assert l in a <==> l in FirstOccurrences(a);
    assert l in b <==> l in FirstOccurrences(b);
    FirstOccurrencesSnoc(a, l);
    FirstOccurrencesSnoc(b, l);
  }

  /** An element that already occurred before adds nothing when it occurs again. */
  lemma {:induction false} FirstOccurrencesDropRepeat<T(!new)>(x: seq<T>, m: T, rest: seq<T>)
    requires m in x
    ensures FirstOccurrences(x + [m] + rest) == FirstOccurrences(x + rest)
    decreases |rest|
  {
    if rest == [] {
      assert x + [m] + rest == x + [m];
      assert x + rest == x;
      FirstOccurrencesSnoc(x, m);
    } else {
      var r' := rest[..|rest| - 1];
      var l := rest[|rest| - 1];
      FirstOccurrencesDropRepeat(x, m, r');
      assert x + [m] + rest == (x + [m] + r') + [l];
      assert x + rest == (x + r') + [l];
      FirstOccurrencesSameStep(x + [m] + r', x + r', l);
    }
  }

  /** Prefixes with the same first occurrences keep them equal under any common continuation. */
  lemma {:induction false} FirstOccurrencesCongruent<T(!new)>(a: seq<T>, b: seq<T>, y: seq<T>)
    requires FirstOccurrences(a) == FirstOccurrences(b)
    ensures FirstOccurrences(a + y) == FirstOccurrences(b + y)
    decreases |y|
  {
    if y == [] {
      assert a + y == a && b + y == b;
    } else {
      var y', l := y[..|y| - 1], y[|y| - 1];
      FirstOccurrencesCongruent(a, b, y');
      AppendLast(a, y);
      AppendLast(b, y);
      FirstOccurrencesSameStep(a + y', b + y', l);
    }
  }

  lemma AppendLast<T>(a: seq<T>, y: seq<T>)
    requires y != []
    ensures a + y == (a + y[..|y| - 1]) + [y[|y| - 1]]
  {
  }

  /** Taking first occurrences of a prefix first changes nothing. */
  lemma FirstOccurrencesOfPrefix<T(!new)>(x: seq<T>, y: seq<T>)
    ensures FirstOccurrences(FirstOccurrences(x) + y) == FirstOccurrences(x + y)
  {
    FirstOccurrencesOfDistinct(FirstOccurrences(x));
    FirstOccurrencesCongruent(FirstOccurrences(x), x, y);
  }
}
