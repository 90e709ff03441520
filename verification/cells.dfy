/**
 * Spreadsheet cells and the per-cell text normalisation the analyzer applies
 * before counting: pandas' `fillna`, `astype(str)`, Python's `str.strip()`
 * and `str.lower()`.
 */
module Cells {

  /** One cell of a loaded table. */
  datatype Cell =
    | Missing               // NaN or None: `pd.isna` holds of it
    | Str(text: string)     // a Python `str`
    | NonStr(shown: string) // any other value (a number, a date, a bool); `shown` is its `str(...)`

  /** The text of a cell after `fillna(fill).astype(str)`. */
  function Filled(c: Cell, fill: string): string
  {
    match c
    case Missing => fill
    case Str(s) => s
    case NonStr(s) => s
  }

  /** Whitespace in the ASCII range, as Python's `str.isspace` classifies it. */
  predicate IsSpace(c: char)
  {
    (9 <= c as int <= 13) || (28 <= c as int <= 32)
  }

  predicate AllSpace(s: string)
  {
    forall i :: 0 <= i < |s| ==> IsSpace(s[i])
  }

  /** `s` with its leading whitespace removed. */
  function TrimStart(s: string): string
  {
    if |s| > 0 && IsSpace(s[0]) then TrimStart(s[1..]) else s
  }

  /** `s` with its trailing whitespace removed. */
  function TrimEnd(s: string): string
  {
    if |s| > 0 && IsSpace(s[|s| - 1]) then TrimEnd(s[..|s| - 1]) else s
  }

  /** Python's `str.strip()` restricted to ASCII whitespace. */
  function Strip(s: string): string
  {
    TrimEnd(TrimStart(s))
  }

  /** Python's `str.lower()` on one character, restricted to ASCII letters. */
  function LowerChar(c: char): char
  {
    if 'A' <= c <= 'Z' then (c as int + 32) as char else c
  }

  /** Python's `str.lower()` restricted to ASCII letters. */
  function Lower(s: string): string
  {
    if s == [] then [] else [LowerChar(s[0])] + Lower(s[1..])
  }

  /** TrimStart removes a whitespace prefix, and what it keeps is the longest suffix that does not start with whitespace. */
  lemma {:induction false} TrimStartFacts(s: string)
    ensures var r := TrimStart(s);
      && |r| <= |s| && r == s[|s| - |r|..]
      && AllSpace(s[..|s| - |r|])
      && (r == [] || !IsSpace(r[0]))
  {
    if |s| > 0 && IsSpace(s[0]) {
      TrimStartFacts(s[1..]);
      var r := TrimStart(s);
      assert forall i :: 1 <= i < |s| - |r| ==> s[i] == s[1..][i - 1];
    }
  }

  /** TrimEnd removes a whitespace suffix, and what it keeps is the longest prefix that does not end with whitespace. */
  lemma {:induction false} TrimEndFacts(s: string)
    ensures var r := TrimEnd(s);
      && |r| <= |s| && r == s[..|r|]
      && AllSpace(s[|r|..])
      && (r == [] || !IsSpace(r[|r| - 1]))
  {
    if |s| > 0 && IsSpace(s[|s| - 1]) {
      TrimEndFacts(s[..|s| - 1]);
      var r := TrimEnd(s);
      assert forall i :: |r| <= i < |s| - 1 ==> s[i] == s[..|s| - 1][i];
    }
  }

  /**
   * Strip never lengthens its input, leaves no whitespace at either end, and
   * yields the empty string exactly when the input is all whitespace.
   */
  lemma StripFacts(s: string)
    ensures |Strip(s)| <= |s|
    ensures Strip(s) == [] || (!IsSpace(Strip(s)[0]) && !IsSpace(Strip(s)[|Strip(s)| - 1]))
    ensures Strip(s) == [] <==> AllSpace(s)
  {
    var t := TrimStart(s);
    TrimStartFacts(s);
    TrimEndFacts(t);
    if TrimEnd(t) == [] {
      assert s == s[..|s| - |t|] + t;
    }
  }

  /** Lower keeps the length and lower-cases each character in place. */
  lemma {:induction false} LowerAt(s: string)
    ensures |Lower(s)| == |s|
    ensures forall i :: 0 <= i < |s| ==> Lower(s)[i] == LowerChar(s[i])
  {
    if s != [] {
      LowerAt(s[1..]);
    }
  }

  /** Leading whitespace in front of a word that starts with a non-space is exactly what TrimStart removes. */
  lemma {:induction false} TrimStartPadded(p: string, w: string)
    requires AllSpace(p)
    requires w == [] || !IsSpace(w[0])
    ensures TrimStart(p + w) == w
    decreases |p|
  {
    if p == [] {
      assert p + w == w;
    } else {
      assert (p + w)[1..] == p[1..] + w;
      TrimStartPadded(p[1..], w);
    }
  }

  /** Trailing whitespace after a word that ends with a non-space is exactly what TrimEnd removes. */
  lemma {:induction false} TrimEndPadded(w: string, q: string)
    requires AllSpace(q)
    requires w == [] || !IsSpace(w[|w| - 1])
    ensures TrimEnd(w + q) == w
    decreases |q|
  {
    if q == [] {
      assert w + q == w;
    } else {
      assert (w + q)[..|w + q| - 1] == w + q[..|q| - 1];
      TrimEndPadded(w, q[..|q| - 1]);
    }
  }

  /**
   * Strip removes exactly the surrounding whitespace: a word without
   * whitespace at either end comes back unchanged whatever padding surrounds it.
   */
  lemma StripPadded(p: string, w: string, q: string)
    requires AllSpace(p) && AllSpace(q)
    requires w == [] || (!IsSpace(w[0]) && !IsSpace(w[|w| - 1]))
    ensures Strip(p + w + q) == w
  {
    if w == [] {
      assert AllSpace(p + w + q);
      StripFacts(p + w + q);
    } else {
      assert p + w + q == p + (w + q);
      TrimStartPadded(p, w + q);
      TrimEndPadded(w, q);
    }
  }

  /** The normal form "trim, then lower-case" of a padded word depends only on the word. */
  lemma NormalFormPadded(p: string, w: string, q: string)
    requires AllSpace(p) && AllSpace(q)
    requires w == [] || (!IsSpace(w[0]) && !IsSpace(w[|w| - 1]))
    ensures Lower(Strip(p + w + q)) == Lower(w)
  {
    StripPadded(p, w, q);
  }
}
