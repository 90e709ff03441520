/**
 * The Yes/No columns (indices 6, 8, 10, 12, 14): each cell is trimmed and
 * lower-cased, "yes" and "no" are counted, and everything else (missing
 * cells included) is "No Response".
 */
module YesNo {
  import opened Wrappers
  import opened Cells
  import opened Numbers

  /** What a missing cell is filled with before normalisation. */
  const NoResponse: string := "No Response"

  /** A cell's normal form: `fillna("No Response").astype(str).str.strip().str.lower()`. */
  function Key(c: Cell): string
  {
    Lower(Strip(Filled(c, NoResponse)))
  }

  /** How many cells have the normal form `key`: `sum(cleaned_responses == key)`. */
  function CountKey(cells: seq<Cell>, key: string): (n: nat)
    ensures n <= |cells|
  {
    if cells == [] then 0
    else CountKey(cells[..|cells| - 1], key) + (if Key(cells[|cells| - 1]) == key then 1 else 0)
  }

  /** How many cells are neither "yes" nor "no" once normalised. */
  function CountNeither(cells: seq<Cell>): nat
  {
    if cells == [] then 0
    else CountNeither(cells[..|cells| - 1]) + (if Key(cells[|cells| - 1]) in {"yes", "no"} then 0 else 1)
  }

  datatype YesNoStats = YesNoStats(
    columnName: string,
    yes: nat,
    no: nat,
    noResponse: nat,
    yesPercent: Fraction,
    noPercent: Fraction,
    noResponsePercent: Fraction)

  /** Every cell is "yes", "no" or neither, in exactly one way. */
  lemma {:induction false} Partition(cells: seq<Cell>)
    ensures CountKey(cells, "yes") + CountKey(cells, "no") + CountNeither(cells) == |cells|
  {
    if cells != [] {
      Partition(cells[..|cells| - 1]);
    }
  }

  /**
   * The statistics of one Yes/No column. "No Response" is the remainder of
   * the row count, which is exactly the cells that are neither "yes" nor
   * "no". The percentages divide by the row count, so with no rows the
   * source raises ZeroDivisionError, modelled as None.
   */
  function AnalyzeYesNo(name: string, cells: seq<Cell>): (r: Option<YesNoStats>)
    ensures r.None? <==> |cells| == 0
    ensures r.Some? ==> r.value.columnName == name
    ensures r.Some? ==> r.value.yes == CountKey(cells, "yes") && r.value.no == CountKey(cells, "no")
    ensures r.Some? ==> r.value.noResponse == CountNeither(cells)
    ensures r.Some? ==> r.value.yes + r.value.no + r.value.noResponse == |cells|
    ensures r.Some? ==> r.value.yesPercent == Percent(r.value.yes, |cells|)
    ensures r.Some? ==> r.value.noPercent == Percent(r.value.no, |cells|)
    ensures r.Some? ==> r.value.noResponsePercent == Percent(r.value.noResponse, |cells|)
  {
    var yes, no := CountKey(cells, "yes"), CountKey(cells, "no");
    Partition(cells);
    var noResponse := |cells| - (yes + no);
    if |cells| == 0 then None
    else
      Some(YesNoStats(name, yes, no, noResponse,
        Percent(yes, |cells|), Percent(no, |cells|), Percent(noResponse, |cells|)))
  }

  /** The three percentages of a column with rows add up to 100. */
  lemma YesNoPercentagesSum(name: string, cells: seq<Cell>)
    requires |cells| > 0
    ensures var st := AnalyzeYesNo(name, cells).value;
      && st.yesPercent.denominator > 0 && st.noPercent.denominator > 0 && st.noResponsePercent.denominator > 0
      && Value(st.yesPercent) + Value(st.noPercent) + Value(st.noResponsePercent) == 100.0
  {
    var st := AnalyzeYesNo(name, cells).value;
    PercentsOfPartition(st.yes, st.no, st.noResponse, |cells|);
  }

  /**
   * Matching ignores case and surrounding whitespace: any padding of any
   * casing of "yes" ("YES", " yes ", "Yes") lands in the Yes bucket.
   */
  lemma YesInAnyCase(p: string, w: string, q: string)
    requires AllSpace(p) && AllSpace(q)
    requires Lower(w) == "yes"
    ensures Key(Str(p + w + q)) == "yes"
  {
    LowerAt(w);
    assert LowerChar(w[0]) == 'y' && LowerChar(w[2]) == 's';
    NormalFormPadded(p, w, q);
  }

  /** The same for "no". */
  lemma NoInAnyCase(p: string, w: string, q: string)
    requires AllSpace(p) && AllSpace(q)
    requires Lower(w) == "no"
    ensures Key(Str(p + w + q)) == "no"
  {
    LowerAt(w);
    assert LowerChar(w[0]) == 'n' && LowerChar(w[1]) == 'o';
    NormalFormPadded(p, w, q);
  }

  /** "YES" counts as Yes. */
  lemma UpperCaseYes()
    ensures Key(Str("YES")) == "yes"
  {
    assert Lower("YES") == "yes";
    YesInAnyCase("", "YES", "");
    assert "" + "YES" + "" == "YES";
  }

  /** " yes " counts as Yes. */
  lemma PaddedYes()
    ensures Key(Str(" yes ")) == "yes"
  {
    assert AllSpace(" ");
    YesInAnyCase(" ", "yes", " ");
    assert " " + "yes" + " " == " yes ";
  }

  /** "Yes" counts as Yes. */
  lemma CapitalisedYes()
    ensures Key(Str("Yes")) == "yes"
  {
    assert Lower("Yes") == "yes";
    YesInAnyCase("", "Yes", "");
    assert "" + "Yes" + "" == "Yes";
  }

  /** A missing cell is never Yes or No: it counts as No Response. */
  lemma MissingIsNoResponse()
    ensures Key(Missing) !in {"yes", "no"}
  {
    StripPadded("", NoResponse, "");
    assert "" + NoResponse + "" == NoResponse;
  }
}
