/** Cells, the numeric coercion `safe_num` (pandas' `to_numeric(errors="coerce")`), and the
    NaN-skipping sums and means every report is built from. */
module Numeric {

  datatype Option<T> = None | Some(value: T)

  /** One table cell: a number, a text, or absent (pandas' NaN/None). */
  datatype Cell = Num(x: real) | Text(s: string) | Missing

  predicate IsDigit(ch: char)
  {
    '0' <= ch <= '9'
  }

  predicate AllDigits(s: string)
  {
    forall i :: 0 <= i < |s| ==> IsDigit(s[i])
  }

  function DigitValue(ch: char): nat
    requires IsDigit(ch)
  {
    ch as int - '0' as int
  }

  /** The natural number written in decimal by `s` (most significant digit first). */
  function DigitsValue(s: string): nat
    requires AllDigits(s)
  {
    if s == [] then 0 else DigitsValue(s[..|s| - 1]) * 10 + DigitValue(s[|s| - 1])
  }

  function Pow10(n: nat): (p: nat)
    ensures p >= 1
  {
    if n == 0 then 1 else 10 * Pow10(n - 1)
  }

  /** Position of the first `ch` in `s`, or `|s|` when there is none. */
  function IndexOf(s: string, ch: char): (k: nat)
    ensures k <= |s|
    ensures k < |s| ==> s[k] == ch
    ensures forall i :: 0 <= i < k ==> s[i] != ch
  {
    if s == [] then 0
    else if s[0] == ch then 0
    else 1 + IndexOf(s[1..], ch)
  }

  /** An unsigned decimal numeral `digits` or `digits.digits`. */
  function ParseUnsigned(s: string): (r: Option<real>)
    ensures r.Some? ==> r.value >= 0.0
    ensures r.Some? ==> s != [] && IsDigit(s[0])
  {
    var k := IndexOf(s, '.');
    if k == |s| then
      if s != [] && AllDigits(s) then Some(DigitsValue(s) as real) else None
    else if 0 < k && k + 1 < |s| && AllDigits(s[..k]) && AllDigits(s[k + 1..]) then
      Some(DecimalValue(s[..k], s[k + 1..]))
    else None
  }

  /** The unsigned numerals: digits, or digits, a point and digits. */
  predicate IsUnsignedNumeral(s: string)
  {
    (s != [] && AllDigits(s)) ||
    exists k :: 0 < k < |s| - 1 && s[k] == '.' && AllDigits(s[..k]) && AllDigits(s[k + 1..])
  }

  /** The numerals: an unsigned numeral with an optional leading `+` or `-`. */
  predicate IsNumeral(s: string)
  {
    IsUnsignedNumeral(s) || (s != [] && (s[0] == '+' || s[0] == '-') && IsUnsignedNumeral(s[1..]))
  }

  /** A numeral's first point is the one after its leading digits. */
  lemma PointAfterDigits(s: string, k: nat)
    requires k < |s| && s[k] == '.' && AllDigits(s[..k])
    ensures IndexOf(s, '.') == k
  {
  }

  /** Exactly the unsigned numerals read as numbers; every other text is missing. */
  lemma UnsignedNumeralParses(s: string)
    ensures ParseUnsigned(s).Some? <==> IsUnsignedNumeral(s)
  {
    var k := IndexOf(s, '.');
    if IsUnsignedNumeral(s) && !(s != [] && AllDigits(s)) {
      var i :| 0 < i < |s| - 1 && s[i] == '.' && AllDigits(s[..i]) && AllDigits(s[i + 1..]);
      PointAfterDigits(s, i);
    }
  }

  /** A text read as a number: an optional sign followed by an unsigned decimal numeral. */
  function ParseNumber(s: string): (r: Option<real>)
    ensures r.Some? ==> s != []
    ensures r.Some? <==> IsNumeral(s)
  {
    UnsignedNumeralParses(s);
    if s != [] && (s[0] == '-' || s[0] == '+') then
      UnsignedNumeralParses(s[1..]);
      match ParseUnsigned(s[1..])
      case Some(v) => Some(if s[0] == '-' then -v else v)
      case None => None
    else ParseUnsigned(s)
  }

  function DigitChar(d: nat): (ch: char)
    requires d < 10
    ensures IsDigit(ch) && DigitValue(ch) == d
  {
    ('0' as int + d) as char
  }

  /** Decimal rendering of a natural number, as `str(n)` writes it. */
  function ShowNat(n: nat): string
  {
    if n < 10 then [DigitChar(n)] else ShowNat(n / 10) + [DigitChar(n % 10)]
  }

  lemma {:induction false} ShowNatDigits(n: nat)
    ensures ShowNat(n) != [] && AllDigits(ShowNat(n))
    ensures DigitsValue(ShowNat(n)) == n
    ensures IndexOf(ShowNat(n), '.') == |ShowNat(n)|
  {
    if n >= 10 {
      ShowNatDigits(n / 10);
      var s := ShowNat(n);
      assert s[..|s| - 1] == ShowNat(n / 10);
    }
  }

  /** Reading back the decimal text of a natural number gives that number. */
  lemma {:induction false} ParseShowNat(n: nat)
    ensures ParseNumber(ShowNat(n)) == Some(n as real)
  {
    ShowNatDigits(n);
  }

  /** Searching a concatenation whose first part lacks `ch` continues into the second part. */
  lemma {:induction false} IndexOfAppend(a: string, b: string, ch: char)
    requires IndexOf(a, ch) == |a|
    ensures IndexOf(a + b, ch) == |a| + IndexOf(b, ch)
  {
    if a == [] {
      assert a + b == b;
    } else {
      assert a[0] != ch;
      assert (a + b)[0] == a[0];
      assert (a + b)[1..] == a[1..] + b;
      IndexOfAppend(a[1..], b, ch);
    }
  }

  /** A numeral holds no decimal point. */
  lemma {:induction false} DigitsHaveNoPoint(w: string)
    requires AllDigits(w)
    ensures IndexOf(w, '.') == |w|
  {
    if w != [] {
      DigitsHaveNoPoint(w[1..]);
    }
  }

  /** The value written `whole.fraction` with numerals `w` and `frac`. */
  function DecimalValue(w: string, frac: string): real
    requires AllDigits(w) && AllDigits(frac)
  {
    DigitsValue(w) as real + DigitsValue(frac) as real / Pow10(|frac|) as real
  }

  /** An unsigned decimal `whole.fraction` reads as the whole part plus the scaled fraction. */
  lemma ParseUnsignedDecimal(w: string, frac: string)
    requires w != [] && AllDigits(w)
    requires frac != [] && AllDigits(frac)
    ensures ParseUnsigned(w + "." + frac) == Some(DecimalValue(w, frac))
  {
    DecimalPoint(w, frac);
  }

  /** In `w.frac` with `w` a numeral, the first point is the one after `w`. */
  lemma DecimalPoint(w: string, frac: string)
    requires AllDigits(w)
    ensures var u := w + "." + frac;
      IndexOf(u, '.') == |w| && u[..|w|] == w && u[|w| + 1..] == frac
  {
    var u := w + "." + frac;
    assert u == w + ("." + frac);
    DigitsHaveNoPoint(w);
    IndexOfAppend(w, "." + frac, '.');
  }

  /** A sign in front of an unsigned numeral: `+` keeps its value, `-` negates it. */
  lemma ParseSigned(sign: string, u: string, v: real)
    requires sign == "" || sign == "+" || sign == "-"
    requires ParseUnsigned(u) == Some(v)
    ensures ParseNumber(sign + u) == Some(if sign == "-" then -v else v)
  {
    var s := sign + u;
    if sign != "" {
      assert s[1..] == u;
    } else {
      assert s == u;
    }
  }

  /** Reading a signed decimal `[+|-]whole.fraction` written with numerals `w` and `frac`: the
      value of `w` plus the fraction's digits scaled by their count, negated under a minus sign. */
  lemma ParseDecimal(sign: string, w: string, frac: string)
    requires sign == "" || sign == "+" || sign == "-"
    requires w != [] && AllDigits(w)
    requires frac != [] && AllDigits(frac)
    ensures ParseNumber(sign + (w + "." + frac)) ==
      Some(if sign == "-" then -DecimalValue(w, frac) else DecimalValue(w, frac))
  {
    ParseUnsignedDecimal(w, frac);
    ParseSigned(sign, w + "." + frac, DecimalValue(w, frac));
  }

  /** `safe_num` on one cell: numbers stay, numeric texts are read, everything else is missing. */
  function SafeNum(c: Cell): (r: Option<real>)
    ensures c.Missing? ==> r.None?
    ensures c.Num? ==> r == Some(c.x)
    ensures c.Text? ==> (r.Some? <==> IsNumeral(c.s))
  {
    match c
    case Num(x) => Some(x)
    case Text(s) => ParseNumber(s)
    case Missing => None
  }

  /** The coerced values of `cells` that are not missing, in order (`safe_num(...).dropna()`). */
  function Numbers(cells: seq<Cell>): (xs: seq<real>)
    ensures |xs| <= |cells|
    ensures xs == [] <==> forall i :: 0 <= i < |cells| ==> SafeNum(cells[i]).None?
  {
    if cells == [] then []
    else
      var front := Numbers(cells[..|cells| - 1]);
      match SafeNum(cells[|cells| - 1])
      case Some(x) => front + [x]
      case None => front
  }

  /** Coercing a concatenation coerces each part: a missing cell contributes nothing, wherever it is. */
  lemma {:induction false} NumbersAppend(a: seq<Cell>, b: seq<Cell>)
    ensures Numbers(a + b) == Numbers(a) + Numbers(b)
  {
    if b != [] {
      assert (a + b)[..|a + b| - 1] == a + b[..|b| - 1];
      NumbersAppend(a, b[..|b| - 1]);
    } else {
      assert a + b == a;
    }
  }

  function Sum(xs: seq<real>): real
  {
    if xs == [] then 0.0 else Sum(xs[..|xs| - 1]) + xs[|xs| - 1]
  }

  lemma {:induction false} SumAppend(a: seq<real>, b: seq<real>)
    ensures Sum(a + b) == Sum(a) + Sum(b)
  {
    if b != [] {
      assert (a + b)[..|a + b| - 1] == a + b[..|b| - 1];
      SumAppend(a, b[..|b| - 1]);
    } else {
      assert a + b == a;
    }
  }

  /** pandas' `mean()` over values already stripped of NaN: undefined (None) when there are none. */
  function Mean(xs: seq<real>): (m: Option<real>)
    ensures m.None? <==> xs == []
    ensures m.Some? ==> m.value * |xs| as real == Sum(xs)
  {
    if xs == [] then None else Some(Sum(xs) / |xs| as real)
  }

  lemma {:induction false} SumBounds(xs: seq<real>, lo: real, hi: real)
    requires forall i :: 0 <= i < |xs| ==> lo <= xs[i] <= hi
    ensures |xs| as real * lo <= Sum(xs) <= |xs| as real * hi
  {
    if xs != [] {
      SumBounds(xs[..|xs| - 1], lo, hi);
    }
  }

  /** A mean lies between the smallest and the largest value it averages. */
  lemma MeanBounds(xs: seq<real>, lo: real, hi: real)
    requires xs != []
    requires forall i :: 0 <= i < |xs| ==> lo <= xs[i] <= hi
    ensures lo <= Mean(xs).value <= hi
  {
    SumBounds(xs, lo, hi);
    var n := |xs| as real;
    var m := Mean(xs).value;
    Unscale(lo, m, n);
    Unscale(m, hi, n);
  }

  /** Dividing both sides of an inequality by the same positive count keeps it. */
  lemma Unscale(a: real, b: real, n: real)
    requires n > 0.0 && a * n <= b * n
    ensures a <= b
  {
  }
}
