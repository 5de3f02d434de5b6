/** Ordering of grouped report rows: `groupby` lists its groups by ascending key. */
module Sorting {
  import opened Sequences
  import opened Strings

  /** Each key is strictly below the next in Python's string order. */
  predicate StrictlyAscending(s: seq<string>)
  {
    forall i :: 0 <= i < |s| - 1 ==> Less(s[i], s[i + 1])
  }

  /** `x` placed into an ascending sequence that lacks it. */
  function Insert(x: string, s: seq<string>): (r: seq<string>)
    requires StrictlyAscending(s) && x !in s
    ensures StrictlyAscending(r)
    ensures multiset(r) == multiset(s) + multiset{x}
    ensures r[0] == x || (s != [] && r[0] == s[0])
  {
    if s == [] then [x]
    else if Less(x, s[0]) then [x] + s
    else
      LessTotal(x, s[0]);
      var rest := Insert(x, s[1..]);
      assert s == [s[0]] + s[1..];
      [s[0]] + rest
  }

  /** The keys in ascending order (insertion sort; keys are distinct, as group keys are). */
  function SortStrings(s: seq<string>): (r: seq<string>)
    requires Distinct(s)
    ensures StrictlyAscending(r)
    ensures multiset(r) == multiset(s)
  {
    if s == [] then []
    else
      var front := s[..|s| - 1];
      var sorted := SortStrings(front);
      assert s[|s| - 1] !in multiset(front);
      assert s == front + [s[|s| - 1]];
      Insert(s[|s| - 1], sorted)
  }

  /** Sorting keeps exactly the names it was given. */
  lemma SortStringsMembers(s: seq<string>)
    requires Distinct(s)
    ensures forall x :: x in SortStrings(s) <==> x in s
  {
    var r := SortStrings(s);
    assert forall x :: x in r <==> x in multiset(r);
    assert forall x :: x in s <==> x in multiset(s);
  }
}
