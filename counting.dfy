/** `value_counts()`: how often each distinct value occurs, most frequent first. */
module Counting {
  import opened Sequences

  datatype Tally = Tally(value: string, count: nat)

  /** One tally per distinct value, in order of first appearance. */
  function Tallies(vals: seq<string>): (ts: seq<Tally>)
  {
    var us := FirstOccurrences(vals);
    seq(|us|, i requires 0 <= i < |us| => Tally(us[i], Count(vals, us[i])))
  }

  predicate Descending(ts: seq<Tally>)
  {
    forall i :: 0 <= i < |ts| - 1 ==> ts[i].count >= ts[i + 1].count
  }

  /** `t` placed after every entry whose count is at least its own, so equal counts keep their order. */
  function InsertByCount(t: Tally, ts: seq<Tally>): (r: seq<Tally>)
    requires Descending(ts)
    ensures Descending(r)
    ensures multiset(r) == multiset(ts) + multiset{t}
    ensures r[0] == t || (ts != [] && r[0] == ts[0])
  {
    if ts == [] then [t]
    else if ts[0].count < t.count then [t] + ts
    else
      assert ts == [ts[0]] + ts[1..];
      [ts[0]] + InsertByCount(t, ts[1..])
  }

  function SortByCount(ts: seq<Tally>): (r: seq<Tally>)
    ensures Descending(r)
    ensures multiset(r) == multiset(ts)
  {
    if ts == [] then []
    else
      assert ts == ts[..|ts| - 1] + [ts[|ts| - 1]];
      InsertByCount(ts[|ts| - 1], SortByCount(ts[..|ts| - 1]))
  }

  /** `series.value_counts()`: the tallies by descending count. */
  function ValueCounts(vals: seq<string>): (r: seq<Tally>)
    ensures Descending(r)
  {
    SortByCount(Tallies(vals))
  }

  /** Every distinct value gets exactly one tally, holding its number of occurrences; no other
      value gets one. Values are compared exactly, so "X" and "x" are tallied apart. */
  lemma ValueCountsExact(vals: seq<string>)
    ensures forall t :: t in ValueCounts(vals) ==> t.value in vals && t.count == Count(vals, t.value)
    ensures forall v :: v in vals ==> Tally(v, Count(vals, v)) in ValueCounts(vals)
    ensures |ValueCounts(vals)| == |FirstOccurrences(vals)|
  {
    var ts := Tallies(vals);
    var r := ValueCounts(vals);
    assert |r| == |multiset(r)| == |multiset(ts)| == |ts|;
    forall t | t in r
      ensures t.value in vals && t.count == Count(vals, t.value)
    {
      assert t in multiset(ts);
    }
    forall v | v in vals
      ensures Tally(v, Count(vals, v)) in r
    {
      var us := FirstOccurrences(vals);
      var i :| 0 <= i < |us| && us[i] == v;
      assert ts[i] == Tally(v, Count(vals, v));
      assert ts[i] in multiset(r);
    }
  }

  function SumCounts(ts: seq<Tally>): nat
  {
    if ts == [] then 0 else SumCounts(ts[..|ts| - 1]) + ts[|ts| - 1].count
  }

  lemma {:induction false} SumCountsInsert(t: Tally, ts: seq<Tally>)
    requires Descending(ts)
    ensures SumCounts(InsertByCount(t, ts)) == SumCounts(ts) + t.count
  {
    if ts != [] && ts[0].count >= t.count {
      SumCountsInsert(t, ts[1..]);
      SumCountsCons(ts[0], ts[1..]);
      SumCountsCons(ts[0], InsertByCount(t, ts[1..]));
      assert ts == [ts[0]] + ts[1..];
    } else if ts != [] {
      SumCountsCons(t, ts);
    }
  }

  lemma {:induction false} SumCountsCons(t: Tally, ts: seq<Tally>)
    ensures SumCounts([t] + ts) == t.count + SumCounts(ts)
  {
    if ts != [] {
      assert ([t] + ts)[..|ts|] == [t] + ts[..|ts| - 1];
      SumCountsCons(t, ts[..|ts| - 1]);
    }
  }

  lemma {:induction false} SumCountsSort(ts: seq<Tally>)
    ensures SumCounts(SortByCount(ts)) == SumCounts(ts)
  {
    if ts != [] {
      SumCountsSort(ts[..|ts| - 1]);
      SumCountsInsert(ts[|ts| - 1], SortByCount(ts[..|ts| - 1]));
    }
  }

  /** Total of the occurrence counts of the values in `us`. */
  function CountSum(us: seq<string>, vals: seq<string>): nat
  {
    if us == [] then 0 else CountSum(us[..|us| - 1], vals) + Count(vals, us[|us| - 1])
  }

  lemma {:induction false} CountSumStep(us: seq<string>, vals: seq<string>, x: string)
    ensures CountSum(us, vals + [x]) == CountSum(us, vals) + Count(us, x)
  {
    if us != [] {
      CountSumStep(us[..|us| - 1], vals, x);
      assert (vals + [x])[..|vals|] == vals;
    }
  }

  lemma {:induction false} CountDistinct(us: seq<string>, x: string)
    requires Distinct(us) && x in us
    ensures Count(us, x) == 1
  {
    var front := us[..|us| - 1];
    assert us == front + [us[|us| - 1]];
    if us[|us| - 1] != x {
      CountDistinct(front, x);
    }
  }

  lemma {:induction false} CountSumFirstOccurrences(vals: seq<string>)
    ensures CountSum(FirstOccurrences(vals), vals) == |vals|
  {
    if vals != [] {
      var front := vals[..|vals| - 1];
      var x := vals[|vals| - 1];
      assert vals == front + [x];
      var u := FirstOccurrences(front);
      var u' := FirstOccurrences(vals);
      CountSumFirstOccurrences(front);
      CountSumStep(u', front, x);
      CountDistinct(u', x);
      if x !in u {
        assert u' == u + [x];
        assert u'[..|u'| - 1] == u;
      }
    }
  }

  lemma {:induction false} TalliesSum(vals: seq<string>, n: nat)
    requires n <= |FirstOccurrences(vals)|
    ensures SumCounts(Tallies(vals)[..n]) == CountSum(FirstOccurrences(vals)[..n], vals)
  {
    if n > 0 {
      TalliesSum(vals, n - 1);
      var us := FirstOccurrences(vals);
      assert Tallies(vals)[..n][..n - 1] == Tallies(vals)[..n - 1];
      assert us[..n][..n - 1] == us[..n - 1];
    }
  }

  /** The counts add up to the number of values counted. */
  lemma ValueCountsTotal(vals: seq<string>)
    ensures SumCounts(ValueCounts(vals)) == |vals|
  {
    var ts := Tallies(vals);
    SumCountsSort(ts);
    TalliesSum(vals, |FirstOccurrences(vals)|);
    assert ts[..|ts|] == ts;
    assert FirstOccurrences(vals)[..|FirstOccurrences(vals)|] == FirstOccurrences(vals);
    CountSumFirstOccurrences(vals);
  }
}
