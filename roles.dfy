/** Column roles inferred from normalised column names: rating columns, the "delivery of lecture"
    anchor, and the parameter columns of the master dashboard. */
module Roles {
  import opened Sequences
  import opened Strings
  import opened Numeric
  import opened Tables

  predicate IsRatingName(c: string)
  {
    Contains(c, "rate") || Contains(c, "rating")
  }

  /** `[c for c in filtered.columns if "rate" in c or "rating" in c]`. */
  function RatingColumns(cols: seq<string>): (rc: seq<string>)
    ensures Subsequence(rc, cols)
    ensures forall c :: c in rc <==> c in cols && IsRatingName(c)
  {
    if cols == [] then []
    else
      var front := RatingColumns(cols[..|cols| - 1]);
      var last := cols[|cols| - 1];
      assert cols == cols[..|cols| - 1] + [last];
      if IsRatingName(last) then front + [last] else front
  }

  const AnchorKeyword := "delivery of lecture"

  predicate IsAnchorName(c: string)
  {
    Contains(c, AnchorKeyword)
  }

  /** Position of `next((c for c in columns if "delivery of lecture" in c), None)`:
      the first column whose name contains the keyword, or none. */
  function FindAnchor(cols: seq<string>): (k: Option<nat>)
    ensures k.Some? ==> k.value < |cols| && IsAnchorName(cols[k.value])
    ensures k.Some? ==> forall j :: 0 <= j < k.value ==> !IsAnchorName(cols[j])
    ensures k.None? <==> forall j :: 0 <= j < |cols| ==> !IsAnchorName(cols[j])
  {
    if cols == [] then None
    else if IsAnchorName(cols[0]) then Some(0)
    else
      match FindAnchor(cols[1..])
      case None => None
      case Some(k) => Some(k + 1)
  }

  const ParameterKeywords: seq<string> :=
    ["ease", "admission", "support", "syllabus", "curriculum", "self-learning", "quality"]

  /** `any(k in c for k in [...])` over the seven master-dashboard keywords. */
  predicate IsParameterName(c: string)
  {
    exists k :: k in ParameterKeywords && Contains(c, k)
  }

  /** `safe_num(filtered[c]).notna().sum() > 0`: some row of column `c` holds a number. */
  predicate HasNumeric(rows: seq<Row>, c: string)
  {
    Numbers(Column(rows, c)) != []
  }

  /** A column has a number exactly when one of its cells coerces to one. */
  lemma HasNumericWitness(rows: seq<Row>, c: string)
    ensures HasNumeric(rows, c) <==> exists i :: 0 <= i < |rows| && SafeNum(Get(rows[i], c)).Some?
  {
    var cells := Column(rows, c);
    if !HasNumeric(rows, c) {
      forall i | 0 <= i < |rows| ensures SafeNum(Get(rows[i], c)).None? {
        assert cells[i] == Get(rows[i], c);
      }
    }
  }
}
