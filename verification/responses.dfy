/**
 * The open-response columns (indices 7, 9, 11, 13, 15, 16): how many cells
 * were answered, and the response rate.
 */
module Responses {
  import opened Wrappers
  import opened Cells
  import opened Numbers

  /** Text that counts as an answer: non-empty once stripped, and not "nan" in any case. */
  predicate Substantive(s: string)
  {
    var t := Strip(s);
    |t| > 0 && Lower(t) != "nan"
  }

  /** Whether a cell was answered: present, and its `str(...)` is substantive. */
  predicate HasContent(c: Cell)
  {
    match c
    case Missing => false
    case Str(s) => Substantive(s)
    case NonStr(s) => Substantive(s)
  }

  function Flags(cells: seq<Cell>): seq<bool>
  {
    seq(|cells|, i requires 0 <= i < |cells| => HasContent(cells[i]))
  }

  /** Builds the `has_content` list, one flag per cell in column order. */
  method HasContentFlags(columnData: seq<Cell>) returns (hasContent: seq<bool>)
    ensures |hasContent| == |columnData|
    ensures forall i :: 0 <= i < |columnData| ==> hasContent[i] == HasContent(columnData[i])
    ensures hasContent == Flags(columnData)
  {
    hasContent := [];
    for i := 0 to |columnData|
      invariant |hasContent| == i
      invariant forall j :: 0 <= j < i ==> hasContent[j] == HasContent(columnData[j])
    {
      var value := columnData[i];
      if value.Missing? {
        hasContent := hasContent + [false];
      } else {
        var strValue := Strip(Filled(value, ""));
        hasContent := hasContent + [|strValue| > 0 && Lower(strValue) != "nan"];
      }
    }
  }

  /** `sum(has_content)`. */
  function CountTrue(bs: seq<bool>): (n: nat)
    ensures n <= |bs|
  {
    if bs == [] then 0 else CountTrue(bs[..|bs| - 1]) + (if bs[|bs| - 1] then 1 else 0)
  }

  /** No flag is set exactly when the count is 0, and every flag is set exactly when it is the length. */
  lemma {:induction false} CountTrueExtremes(bs: seq<bool>)
    ensures CountTrue(bs) == 0 <==> forall i :: 0 <= i < |bs| ==> !bs[i]
    ensures CountTrue(bs) == |bs| <==> forall i :: 0 <= i < |bs| ==> bs[i]
  {
    if bs != [] {
      var init := bs[..|bs| - 1];
      CountTrueExtremes(init);
      assert forall i :: 0 <= i < |init| ==> init[i] == bs[i];
    }
  }

  datatype ResponseRateStats = ResponseRateStats(
    columnName: string,
    totalCells: nat,
    answered: nat,
    notAnswered: nat,
    responseRate: Fraction)

  /**
   * The statistics of one response column, from its `has_content` flags.
   * The rate divides by the number of cells, so with no rows the source
   * raises ZeroDivisionError, modelled as None.
   */
  function ResponseRateOf(name: string, hasContent: seq<bool>): (r: Option<ResponseRateStats>)
    ensures r.None? <==> |hasContent| == 0
    ensures r.Some? ==> r.value.columnName == name && r.value.totalCells == |hasContent|
    ensures r.Some? ==> r.value.answered == CountTrue(hasContent)
    ensures r.Some? ==> r.value.answered + r.value.notAnswered == r.value.totalCells
    ensures r.Some? ==> r.value.responseRate == Percent(r.value.answered, r.value.totalCells)
  {
    var answered := CountTrue(hasContent);
    if |hasContent| == 0 then None
    else Some(ResponseRateStats(name, |hasContent|, answered, |hasContent| - answered,
                                Percent(answered, |hasContent|)))
  }

  /**
   * The response rate of a column with rows lies between 0 and 100: it is
   * 100 exactly when every cell is answered and 0 exactly when none is.
   */
  lemma ResponseRateBounds(name: string, hasContent: seq<bool>)
    requires |hasContent| > 0
    ensures var st := ResponseRateOf(name, hasContent).value;
      && st.responseRate.denominator > 0
      && 0.0 <= Value(st.responseRate) <= 100.0
      && (Value(st.responseRate) == 100.0 <==> forall i :: 0 <= i < |hasContent| ==> hasContent[i])
      && (Value(st.responseRate) == 0.0 <==> forall i :: 0 <= i < |hasContent| ==> !hasContent[i])
  {
    CountTrueExtremes(hasContent);
    PercentBounds(CountTrue(hasContent), |hasContent|);
  }

  /** A cell holding only whitespace is not an answer. */
  lemma BlankIsNotAnswered(s: string)
    requires AllSpace(s)
    ensures !HasContent(Str(s)) && !HasContent(NonStr(s))
  {
    StripFacts(s);
  }

  /** "nan", in any casing and with any padding, is not an answer. */
  lemma NanIsNotAnswered(p: string, w: string, q: string)
    requires AllSpace(p) && AllSpace(q)
    requires Lower(w) == "nan"
    ensures !HasContent(Str(p + w + q)) && !HasContent(NonStr(p + w + q))
  {
    LowerAt(w);
    assert LowerChar(w[0]) == 'n' && LowerChar(w[2]) == 'n';
    StripPadded(p, w, q);
  }

  /** Any other text with a visible character is an answer. */
  lemma VisibleTextIsAnswered(p: string, w: string, q: string)
    requires AllSpace(p) && AllSpace(q)
    requires |w| > 0 && !IsSpace(w[0]) && !IsSpace(w[|w| - 1])
    requires Lower(w) != "nan"
    ensures HasContent(Str(p + w + q)) && HasContent(NonStr(p + w + q))
  {
    StripPadded(p, w, q);
  }
}
