/** The string operations the pipeline applies to column names, file names and cell texts:
    Python's `str.strip()`, `str.lower()`, the `in` substring test and code-point ordering. */
module Strings {

  /** Python's `str.isspace()` for one character. */
  predicate IsSpace(ch: char)
  {
    ('\t' <= ch <= '\r') || ('\U{1C}' <= ch <= ' ') || ch == '\U{85}' || ch == '\U{A0}' ||
    ch == '\U{1680}' || ('\U{2000}' <= ch <= '\U{200A}') || ch == '\U{2028}' || ch == '\U{2029}' ||
    ch == '\U{202F}' || ch == '\U{205F}' || ch == '\U{3000}'
  }

  /** `s` with its leading whitespace removed. */
  function TrimStart(s: string): (r: string)
    ensures |r| <= |s| && r == s[|s| - |r|..]
    ensures r == [] || !IsSpace(r[0])
    ensures forall i :: 0 <= i < |s| - |r| ==> IsSpace(s[i])
  {
    if s != [] && IsSpace(s[0]) then TrimStart(s[1..]) else s
  }

  /** `s` with its trailing whitespace removed. */
  function TrimEnd(s: string): (r: string)
    ensures |r| <= |s| && r == s[..|r|]
    ensures r == [] || !IsSpace(r[|r| - 1])
    ensures forall i :: |r| <= i < |s| ==> IsSpace(s[i])
  {
    if s != [] && IsSpace(s[|s| - 1]) then TrimEnd(s[..|s| - 1]) else s
  }

  /** `r` sits in `s` at offset `i`, with only whitespace before and after it. */
  predicate TrimmedAt(s: string, r: string, i: nat)
  {
    i + |r| <= |s| && s[i..i + |r|] == r &&
    (forall k :: 0 <= k < i ==> IsSpace(s[k])) &&
    (forall k :: i + |r| <= k < |s| ==> IsSpace(s[k]))
  }

  /** Python's `s.strip()`: the longest middle part of `s` that neither starts nor ends with
      whitespace, surrounded in `s` by whitespace only. */
  function Trim(s: string): (r: string)
    ensures r == [] || (!IsSpace(r[0]) && !IsSpace(r[|r| - 1]))
    ensures exists i :: TrimmedAt(s, r, i)
  {
    var t := TrimStart(s);
    var r := TrimEnd(t);
    assert TrimmedAt(s, r, |s| - |t|);
    r
  }

  /** A string with no whitespace at either end is left alone by `Trim`. */
  lemma TrimKeeps(s: string)
    requires s == [] || (!IsSpace(s[0]) && !IsSpace(s[|s| - 1]))
    ensures Trim(s) == s
  {
  }

  /** Upper-case to lower-case for ASCII and Latin-1 letters. */
  function LowerChar(ch: char): char
  {
    if 'A' <= ch <= 'Z' || ('\U{C0}' <= ch <= '\U{DE}' && ch != '\U{D7}') then
      (ch as int + 32) as char
    else ch
  }

  /** Python's `s.lower()`, character by character. */
  function Lower(s: string): (r: string)
    ensures |r| == |s|
  {
    seq(|s|, i requires 0 <= i < |s| => LowerChar(s[i]))
  }

  /** Lower-casing changes letters only: whitespace stays whitespace and nothing else becomes it. */
  lemma LowerCharKeepsSpace(ch: char)
    ensures IsSpace(LowerChar(ch)) == IsSpace(ch)
    ensures LowerChar(LowerChar(ch)) == LowerChar(ch)
  {
  }

  /** Lower-casing twice is lower-casing once. */
  lemma {:induction false} LowerIdempotent(s: string)
    ensures Lower(Lower(s)) == Lower(s)
  {
    forall i | 0 <= i < |s|
      ensures Lower(Lower(s))[i] == Lower(s)[i]
    {
      LowerCharKeepsSpace(s[i]);
    }
  }

  /** The column-name normalisation `str.strip().str.lower()`. */
  function Normalize(name: string): string
  {
    Lower(Trim(name))
  }

  /** A normalised name is its own normal form. */
  lemma {:induction false} NormalizeIdempotent(name: string)
    ensures Normalize(Normalize(name)) == Normalize(name)
  {
    var t := Trim(name);
    var x := Lower(t);
    if x != [] {
      LowerCharKeepsSpace(t[0]);
      LowerCharKeepsSpace(t[|t| - 1]);
    }
    TrimKeeps(x);
    LowerIdempotent(t);
  }

  /** A name without surrounding whitespace and without upper-case letters is already normal. */
  lemma NormalWhen(name: string)
    requires name == [] || (!IsSpace(name[0]) && !IsSpace(name[|name| - 1]))
    requires forall i :: 0 <= i < |name| ==> LowerChar(name[i]) == name[i]
    ensures Normalize(name) == name
  {
    TrimKeeps(name);
  }

  /** Python's `sub in s`: `sub` occurs in `s` as a contiguous substring. */
  predicate Contains(s: string, sub: string)
    decreases |s|
  {
    sub <= s || (s != [] && Contains(s[1..], sub))
  }

  /** A substring found at a given offset is contained. */
  lemma {:induction false} ContainsAt(s: string, sub: string, i: nat)
    requires i + |sub| <= |s| && s[i..i + |sub|] == sub
    ensures Contains(s, sub)
  {
    if i > 0 {
      assert s[1..][i - 1..i - 1 + |sub|] == sub;
      ContainsAt(s[1..], sub, i - 1);
    }
  }

  /** Python's `a < b` on strings: lexicographic order of code points. */
  predicate Less(a: string, b: string)
  {
    if a == [] then b != []
    else if b == [] then false
    else if a[0] != b[0] then a[0] < b[0]
    else Less(a[1..], b[1..])
  }

  /** Two different strings are ordered one way or the other, never both. */
  lemma {:induction false} LessTotal(a: string, b: string)
    ensures a != b ==> Less(a, b) || Less(b, a)
    ensures !(Less(a, b) && Less(b, a))
    ensures !Less(a, a)
  {
    if a != [] && b != [] && a[0] == b[0] {
      LessTotal(a[1..], b[1..]);
      assert a != b ==> a[1..] != b[1..] by {
        if a[1..] == b[1..] { assert a == [a[0]] + a[1..] && b == [b[0]] + b[1..]; }
      }
    }
    if a != [] {
      LessTotal(a[1..], a[1..]);
    }
  }
}
