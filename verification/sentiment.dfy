/**
 * Sentiment of the open-response columns. The scorer (TextBlob in the
 * source) is a parameter: any total function from text to a polarity and
 * a subjectivity.
 */
module Sentiment {
  import opened Wrappers
  import opened Cells
  import opened Numbers
  import opened Responses

  datatype Score = Score(polarity: real, subjectivity: real)

  /** The ranges the scorer promises: polarity in [-1, 1], subjectivity in [0, 1]. */
  predicate InRange(s: Score)
  {
    -1.0 <= s.polarity <= 1.0 && 0.0 <= s.subjectivity <= 1.0
  }

  /** Only present `str` cells are scored; missing cells and other values are not. */
  predicate Scored(c: Cell)
  {
    c.Str?
  }

  /** `analyze_sentiment`: the score of a scored cell, None for any other cell. */
  function AnalyzeSentiment(text: Cell, scorer: string -> Score): (r: Option<Score>)
    ensures r.Some? <==> Scored(text)
    ensures r.Some? ==> r.value == scorer(text.text)
  {
    if Scored(text) then Some(scorer(text.text)) else None
  }

  /** The texts of the scored cells, in column order. */
  function ScoredTexts(cells: seq<Cell>): (r: seq<string>)
    ensures |r| <= |cells|
    ensures r == [] <==> forall i :: 0 <= i < |cells| ==> !Scored(cells[i])
  {
    if cells == [] then []
    else
      var init, last := cells[..|cells| - 1], cells[|cells| - 1];
      assert forall i :: 0 <= i < |init| ==> init[i] == cells[i];
      ScoredTexts(init) + (if Scored(last) then [last.text] else [])
  }

  /** The `sentiments` list: the score of every scored cell, in column order. */
  function ScoredValues(cells: seq<Cell>, scorer: string -> Score): seq<Score>
  {
    if cells == [] then []
    else
      var init := cells[..|cells| - 1];
      match AnalyzeSentiment(cells[|cells| - 1], scorer)
      case None => ScoredValues(init, scorer)
      case Some(s) => ScoredValues(init, scorer) + [s]
  }

  function SumPolarity(ss: seq<Score>): real
  {
    if ss == [] then 0.0 else ss[0].polarity + SumPolarity(ss[1..])
  }

  function SumSubjectivity(ss: seq<Score>): real
  {
    if ss == [] then 0.0 else ss[0].subjectivity + SumSubjectivity(ss[1..])
  }

  function CountPositive(ss: seq<Score>): nat
  {
    if ss == [] then 0 else (if ss[0].polarity > 0.0 then 1 else 0) + CountPositive(ss[1..])
  }

  function CountNegative(ss: seq<Score>): nat
  {
    if ss == [] then 0 else (if ss[0].polarity < 0.0 then 1 else 0) + CountNegative(ss[1..])
  }

  function CountNeutral(ss: seq<Score>): nat
  {
    if ss == [] then 0 else (if ss[0].polarity == 0.0 then 1 else 0) + CountNeutral(ss[1..])
  }

  datatype SentimentSummary = SentimentSummary(
    columnName: string,
    responsesAnalyzed: nat,
    avgPolarity: Fraction,
    avgSubjectivity: Fraction,
    positive: nat,
    negative: nat,
    neutral: nat)

  /**
   * What every summary satisfies: it rests on at least one score, both
   * averages are taken over that many scores, and the distribution adds up
   * to it.
   */
  predicate Consistent(s: SentimentSummary)
  {
    && s.responsesAnalyzed >= 1
    && s.avgPolarity.denominator == s.avgSubjectivity.denominator == s.responsesAnalyzed
    && s.positive + s.negative + s.neutral == s.responsesAnalyzed
  }

  /** The summary of a non-empty list of scores: averages and the distribution by sign of polarity. */
  function Summarize(name: string, ss: seq<Score>): SentimentSummary
    requires |ss| > 0
  {
    SentimentSummary(name, |ss|, Mean(SumPolarity(ss), |ss|), Mean(SumSubjectivity(ss), |ss|),
                     CountPositive(ss), CountNegative(ss), CountNeutral(ss))
  }

  /** `analyze_column_sentiment` as a function: None when nothing was scored. */
  function ColumnSentiment(name: string, cells: seq<Cell>, scorer: string -> Score): Option<SentimentSummary>
  {
    var ss := ScoredValues(cells, scorer);
    if ss == [] then None else Some(Summarize(name, ss))
  }

  /** `analyze_column_sentiment`: collects the scores of a column, then summarises them. */
  method AnalyzeColumnSentiment(columnData: seq<Cell>, columnName: string, scorer: string -> Score)
    returns (r: Option<SentimentSummary>)
    ensures r == ColumnSentiment(columnName, columnData, scorer)
  {
    var sentiments: seq<Score> := [];
    for i := 0 to |columnData|
      invariant sentiments == ScoredValues(columnData[..i], scorer)
    {
      assert columnData[..i + 1][..i] == columnData[..i];
      var s := AnalyzeSentiment(columnData[i], scorer);
      if s.Some? {
        sentiments := sentiments + [s.value];
      }
    }
    assert columnData[..|columnData|] == columnData;
    if sentiments == [] {
      return None;
    }
    r := Some(Summarize(columnName, sentiments));
  }

  // ---------------------------------------------------------------- lemmas

  /** The scorer is applied to the text of every scored cell, in order, and to nothing else. */
  lemma {:induction false} ScorerSeesOnlyScoredTexts(cells: seq<Cell>, scorer: string -> Score)
    ensures |ScoredValues(cells, scorer)| == |ScoredTexts(cells)|
    ensures forall i :: 0 <= i < |ScoredTexts(cells)| ==> ScoredValues(cells, scorer)[i] == scorer(ScoredTexts(cells)[i])
  {
    if cells != [] {
      ScorerSeesOnlyScoredTexts(cells[..|cells| - 1], scorer);
    }
  }

  /** Every score has exactly one sign: positive, negative and neutral add up to the number of scores. */
  lemma {:induction false} DistributionPartition(ss: seq<Score>)
    ensures CountPositive(ss) + CountNegative(ss) + CountNeutral(ss) == |ss|
  {
    if ss != [] {
      DistributionPartition(ss[1..]);
    }
  }

  lemma {:induction false} SumsBounded(ss: seq<Score>)
    requires forall i :: 0 <= i < |ss| ==> InRange(ss[i])
    ensures -(|ss| as real) <= SumPolarity(ss) <= |ss| as real
    ensures 0.0 <= SumSubjectivity(ss) <= |ss| as real
  {
    if ss != [] {
      SumsBounded(ss[1..]);
    }
  }

  /** Averages of in-range scores are in range. */
  lemma AveragesInRange(name: string, ss: seq<Score>)
    requires |ss| > 0
    requires forall i :: 0 <= i < |ss| ==> InRange(ss[i])
    ensures Summarize(name, ss).avgPolarity.denominator > 0 && Summarize(name, ss).avgSubjectivity.denominator > 0
    ensures -1.0 <= Value(Summarize(name, ss).avgPolarity) <= 1.0
    ensures 0.0 <= Value(Summarize(name, ss).avgSubjectivity) <= 1.0
  {
    SumsBounded(ss);
    MeanBounds(SumPolarity(ss), |ss|, -1.0, 1.0);
    MeanBounds(SumSubjectivity(ss), |ss|, 0.0, 1.0);
  }

  /**
   * A column has a sentiment summary exactly when it holds a scored cell;
   * the summary then rests on one score per scored cell, and its
   * distribution adds up to that number.
   */
  lemma SummaryPresence(name: string, cells: seq<Cell>, scorer: string -> Score)
    ensures ColumnSentiment(name, cells, scorer).None? <==> forall i :: 0 <= i < |cells| ==> !Scored(cells[i])
    ensures ColumnSentiment(name, cells, scorer).Some? ==>
      && ColumnSentiment(name, cells, scorer).value.columnName == name
      && ColumnSentiment(name, cells, scorer).value.responsesAnalyzed == |ScoredTexts(cells)|
      && Consistent(ColumnSentiment(name, cells, scorer).value)
  {
    ScorerSeesOnlyScoredTexts(cells, scorer);
    DistributionPartition(ScoredValues(cells, scorer));
  }

  /** When the scorer keeps to its ranges, so do a column's averages. */
  lemma ColumnAveragesInRange(name: string, cells: seq<Cell>, scorer: string -> Score)
    requires forall t :: InRange(scorer(t))
    ensures ColumnSentiment(name, cells, scorer).Some? ==>
      var st := ColumnSentiment(name, cells, scorer).value;
      && st.avgPolarity.denominator > 0 && st.avgSubjectivity.denominator > 0
      && -1.0 <= Value(st.avgPolarity) <= 1.0
      && 0.0 <= Value(st.avgSubjectivity) <= 1.0
  {
    var ss := ScoredValues(cells, scorer);
    if ss != [] {
      ScorerSeesOnlyScoredTexts(cells, scorer);
      AveragesInRange(name, ss);
    }
  }

  /** Being answered and being scored differ: a blank string is scored but not answered... */
  lemma BlankIsScoredNotAnswered(s: string)
    requires AllSpace(s)
    ensures Scored(Str(s)) && !HasContent(Str(s))
  {
    BlankIsNotAnswered(s);
  }

  /** ...and a value that is not a string, such as a number, is answered but not scored. */
  lemma NonStringIsAnsweredNotScored(w: string)
    requires |w| > 0 && !IsSpace(w[0]) && !IsSpace(w[|w| - 1])
    requires Lower(w) != "nan"
    ensures !Scored(NonStr(w)) && HasContent(NonStr(w))
  {
    StripPadded("", w, "");
    assert "" + w + "" == w;
  }
}
