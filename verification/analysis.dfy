/**
 * `analyze_all_columns`: the fixed positional schema, the dispatch of each
 * present column to its analyzer, the panel counter, and the collapse of
 * the whole result to None when any step raises.
 */
module Analysis {
  import opened Wrappers
  import opened Cells
  import opened Categorical
  import opened YesNo
  import opened Responses
  import opened Sentiment

  /** The categorical column ("Column F"). */
  const CategoryColumn: nat := 5
  /** The Yes/No columns (G, I, K, M, O). */
  const YesNoColumns: seq<nat> := [6, 8, 10, 12, 14]
  /** The open-response columns (H, J, L, N, P, Q). */
  const ResponseColumns: seq<nat> := [7, 9, 11, 13, 15, 16]
  /** Panels in the 4 x 3 grid of the combined figure. */
  const TotalPlots: nat := 12

  /** A loaded sheet: column names, the row count, and the cells column by column. */
  datatype Table = Table(names: seq<string>, rows: nat, columns: seq<seq<Cell>>)

  /** A data frame is rectangular: one name per column, `rows` cells in every column. */
  predicate WellFormed(t: Table)
  {
    |t.names| == |t.columns| && forall i :: 0 <= i < |t.columns| ==> |t.columns[i]| == t.rows
  }

  datatype PanelKind = CategoryBars | YesNoPie | ResponsePie

  /** One subplot of the combined figure: its grid position, what it draws, and for which column. */
  datatype Panel = Panel(position: nat, kind: PanelKind, column: string)

  datatype ResponseResults = ResponseResults(rates: seq<ResponseRateStats>, sentiments: seq<SentimentSummary>)

  /** The five results of a successful run, the figure reduced to its panels. */
  datatype AllStats = AllStats(
    fStats: CategoricalStats,
    yesNoStats: seq<YesNoStats>,
    responseStats: seq<ResponseRateStats>,
    sentimentStats: seq<SentimentSummary>,
    panels: seq<Panel>)

  /** The indices of `idx` that are below the column count `n`, in the order of `idx`. */
  function Present(idx: seq<nat>, n: nat): (r: seq<nat>)
    ensures |r| <= |idx|
  {
    if idx == [] then []
    else Present(idx[..|idx| - 1], n) + (if idx[|idx| - 1] < n then [idx[|idx| - 1]] else [])
  }

  predicate Increasing(idx: seq<nat>)
  {
    forall j, k :: 0 <= j < k < |idx| ==> idx[j] < idx[k]
  }

  predicate InTable(t: Table, idx: seq<nat>)
  {
    forall k :: 0 <= k < |idx| ==> idx[k] < |t.columns|
  }

  /** The statistics of Yes/No column `c` of a table with rows. */
  function YesNoOf(t: Table, c: nat): YesNoStats
    requires WellFormed(t) && c < |t.columns| && t.rows > 0
  {
    AnalyzeYesNo(t.names[c], t.columns[c]).value
  }

  /**
   * The Yes/No statistics of the columns `idx`, in order. Every one of them
   * divides by the row count, so without rows the first one raises and the
   * part is None.
   */
  function YesNoPart(t: Table, idx: seq<nat>): Option<seq<YesNoStats>>
    requires WellFormed(t) && InTable(t, idx)
  {
    if idx == [] then Some([])
    else if t.rows == 0 then None
    else Some(seq(|idx|, k requires 0 <= k < |idx| => YesNoOf(t, idx[k])))
  }

  /** The response-rate statistics of response column `c` of a table with rows. */
  function RateOf(t: Table, c: nat): ResponseRateStats
    requires WellFormed(t) && c < |t.columns| && t.rows > 0
  {
    ResponseRateOf(t.names[c], Flags(t.columns[c])).value
  }

  /** `if sentiment_result: sentiment_stats.append(sentiment_result)`, as the list appended. */
  function Found(r: Option<SentimentSummary>): seq<SentimentSummary>
  {
    match r
    case None => []
    case Some(s) => [s]
  }

  /** The sentiment summaries of those of the columns `idx` that have one, in order. */
  function Sentiments(t: Table, idx: seq<nat>, scorer: string -> Score): seq<SentimentSummary>
    requires WellFormed(t) && InTable(t, idx)
  {
    if idx == [] then []
    else
      var c := idx[|idx| - 1];
      Sentiments(t, idx[..|idx| - 1], scorer) + Found(ColumnSentiment(t.names[c], t.columns[c], scorer))
  }

  /**
   * The response-rate statistics of the columns `idx`, in order, and the
   * sentiment summaries of those that have one. Every response rate divides
   * by the row count, so without rows the first one raises and the part is
   * None.
   */
  function ResponsePart(t: Table, idx: seq<nat>, scorer: string -> Score): Option<ResponseResults>
    requires WellFormed(t) && InTable(t, idx)
  {
    if idx == [] then Some(ResponseResults([], []))
    else if t.rows == 0 then None
    else Some(ResponseResults(seq(|idx|, k requires 0 <= k < |idx| => RateOf(t, idx[k])), Sentiments(t, idx, scorer)))
  }

  /**
   * The Yes/No loop read as a recursion over the index list, one index at a
   * time: an index beyond the last column is skipped, and the first column
   * whose percentages raise makes the whole result None.
   */
  function YesNoLoop(t: Table, idx: seq<nat>): Option<seq<YesNoStats>>
    requires WellFormed(t)
  {
    if idx == [] then Some([])
    else
      var prev, c := YesNoLoop(t, idx[..|idx| - 1]), idx[|idx| - 1];
      if prev.None? || c >= |t.columns| then prev
      else
        var st := AnalyzeYesNo(t.names[c], t.columns[c]);
        if st.None? then None else Some(prev.value + [st.value])
  }

  /**
   * The response loop read as a recursion over the index list, one index at
   * a time: an index beyond the last column is skipped, and the first rate
   * that raises makes the whole result None.
   */
  function ResponseLoop(t: Table, idx: seq<nat>, scorer: string -> Score): Option<ResponseResults>
    requires WellFormed(t)
  {
    if idx == [] then Some(ResponseResults([], []))
    else
      var prev, c := ResponseLoop(t, idx[..|idx| - 1], scorer), idx[|idx| - 1];
      if prev.None? || c >= |t.columns| then prev
      else
        var rate := ResponseRateOf(t.names[c], Flags(t.columns[c]));
        if rate.None? then None
        else Some(ResponseResults(prev.value.rates + [rate.value],
                                  prev.value.sentiments + Found(ColumnSentiment(t.names[c], t.columns[c], scorer))))
  }

  /** The pie panels of the Yes/No columns, from position `first` on. */
  function YesNoPanels(yn: seq<YesNoStats>, first: nat): seq<Panel>
  {
    if yn == [] then []
    else YesNoPanels(yn[..|yn| - 1], first) + [Panel(first + |yn| - 1, YesNoPie, yn[|yn| - 1].columnName)]
  }

  /** The pie panels of the response columns, from position `first` on. */
  function ResponsePanels(rs: seq<ResponseRateStats>, first: nat): seq<Panel>
  {
    if rs == [] then []
    else ResponsePanels(rs[..|rs| - 1], first) + [Panel(first + |rs| - 1, ResponsePie, rs[|rs| - 1].columnName)]
  }

  function Panels(fName: string, yn: seq<YesNoStats>, rs: seq<ResponseRateStats>): seq<Panel>
  {
    [Panel(1, CategoryBars, fName)] + YesNoPanels(yn, 2) + ResponsePanels(rs, |yn| + 2)
  }

  /** What `analyze_all_columns` returns, None standing for the all-None tuple of a raised exception. */
  function AllColumns(t: Table, scorer: string -> Score): (r: Option<AllStats>)
    requires WellFormed(t)
    // the IndexError of a missing column 5, or a division by zero rows in the first Yes/No column
    ensures r.None? <==> |t.columns| <= CategoryColumn || (t.rows == 0 && |t.columns| > YesNoColumns[0])
  {
    var n := |t.columns|;
    if n <= CategoryColumn then None
    else
      var f := AnalyzeCategorical(t.names[CategoryColumn], t.columns[CategoryColumn]);
      PresentBelow(YesNoColumns, n);
      PresentBelow(ResponseColumns, n);
      PresentColumns(n);
      YesNoPartFails(t, Present(YesNoColumns, n));
      ResponsePartFails(t, Present(ResponseColumns, n), scorer);
      var yn := YesNoPart(t, Present(YesNoColumns, n));
      var rs := ResponsePart(t, Present(ResponseColumns, n), scorer);
      if yn.None? || rs.None? then None
      else Some(AllStats(f, yn.value, rs.value.rates, rs.value.sentiments,
                         Panels(t.names[CategoryColumn], yn.value, rs.value.rates)))
  }

  /**
   * The Yes/No loop of `analyze_all_columns` over the index list `idx`:
   * every index below the column count is analysed, in order, and draws a
   * pie at the next position from `first` on; a column whose percentages
   * divide by zero rows raises.
   */
  method AnalyzeYesNoColumns(df: Table, idx: seq<nat>, first: nat) returns (yesNoStats: Option<seq<YesNoStats>>, panels: seq<Panel>)
    requires WellFormed(df)
    ensures InTable(df, Present(idx, |df.columns|))
    ensures yesNoStats == YesNoPart(df, Present(idx, |df.columns|))
    ensures yesNoStats.Some? ==> panels == YesNoPanels(yesNoStats.value, first)
  {
    var n := |df.columns|;
    var plotPos := first;
    var stats: seq<YesNoStats> := [];
    panels := [];
    for i := 0 to |idx|
      invariant YesNoLoop(df, idx[..i]) == Some(stats)
      invariant panels == YesNoPanels(stats, first)
      invariant plotPos == first + |stats|
    {
      var colIndex := idx[i];
      assert idx[..i + 1][..i] == idx[..i];
      if colIndex < n {
        var columnStats := AnalyzeYesNo(df.names[colIndex], df.columns[colIndex]);
        if columnStats.None? {
          YesNoLoopStaysNone(df, idx, i + 1);
          YesNoLoopIsPart(df, idx);
          return None, panels;  // ZeroDivisionError in the percentages
        }
        var st := columnStats.value;
        YesNoPanelsSnoc(stats, st, first);
        var panel := Panel(plotPos, YesNoPie, df.names[colIndex]);
        assert panel == Panel(first + |stats|, YesNoPie, st.columnName);
        panels := panels + [panel];
        stats := stats + [st];
        plotPos := plotPos + 1;
      }
    }
    assert idx[..|idx|] == idx;
    YesNoLoopIsPart(df, idx);
    yesNoStats := Some(stats);
  }

  /**
   * The response loop of `analyze_all_columns` over the index list `idx`:
   * every index below the column count gets its response rate and a pie at
   * the next position from `first` on, and its sentiment summary when it
   * has one; a column whose response rate divides by zero rows raises.
   */
  method AnalyzeResponseColumns(df: Table, idx: seq<nat>, first: nat, scorer: string -> Score)
    returns (results: Option<ResponseResults>, panels: seq<Panel>)
    requires WellFormed(df)
    ensures InTable(df, Present(idx, |df.columns|))
    ensures results == ResponsePart(df, Present(idx, |df.columns|), scorer)
    ensures results.Some? ==> panels == ResponsePanels(results.value.rates, first)
  {
    var n := |df.columns|;
    var plotPos := first;
    var responseStats: seq<ResponseRateStats> := [];
    var sentimentStats: seq<SentimentSummary> := [];
    panels := [];
    for i := 0 to |idx|
      invariant ResponseLoop(df, idx[..i], scorer) == Some(ResponseResults(responseStats, sentimentStats))
      invariant panels == ResponsePanels(responseStats, first)
      invariant plotPos == first + |responseStats|
    {
      var colIndex := idx[i];
      assert idx[..i + 1][..i] == idx[..i];
      if colIndex < n {
        var columnData := df.columns[colIndex];
        var columnName := df.names[colIndex];
        var hasContent := HasContentFlags(columnData);
        var stats := ResponseRateOf(columnName, hasContent);
        if stats.None? {
          ResponseLoopStaysNone(df, idx, i + 1, scorer);
          ResponseLoopIsPart(df, idx, scorer);
          return None, panels;  // ZeroDivisionError in the response rate
        }
        var rate := stats.value;
        ResponseLoopStep(df, idx, i, scorer, ResponseResults(responseStats, sentimentStats), rate);
        ResponsePanelsSnoc(responseStats, rate, first);
        var panel := Panel(plotPos, ResponsePie, columnName);
        assert panel == Panel(first + |responseStats|, ResponsePie, rate.columnName);
        panels := panels + [panel];
        responseStats := responseStats + [rate];
        var sentimentResult := AnalyzeColumnSentiment(columnData, columnName, scorer);
        sentimentStats := sentimentStats + Found(sentimentResult);
        plotPos := plotPos + 1;
      }
    }
    assert idx[..|idx|] == idx;
    ResponseLoopIsPart(df, idx, scorer);
    results := Some(ResponseResults(responseStats, sentimentStats));
  }

  /**
   * `analyze_all_columns`. Column 5 is read unconditionally, then the Yes/No
   * and the response columns, each drawing its panels after those before
   * it. Any exception makes the source return None for every result.
   */
  method AnalyzeAllColumns(df: Table, scorer: string -> Score) returns (r: Option<AllStats>)
    requires WellFormed(df)
    ensures r == AllColumns(df, scorer)
    ensures r.None? <==> |df.columns| <= CategoryColumn || (df.rows == 0 && |df.columns| > YesNoColumns[0])
    ensures r.Some? ==> |r.value.panels| == 1 + |r.value.yesNoStats| + |r.value.responseStats| <= TotalPlots
  {
    if |df.columns| <= CategoryColumn {
      return None;  // df.iloc[:, 5] raises IndexError
    }
    var plotPos: nat := 1;
    var columnF := df.columns[CategoryColumn];
    var columnNameF := df.names[CategoryColumn];
    var fStats := AnalyzeCategorical(columnNameF, columnF);
    var panels := [Panel(plotPos, CategoryBars, columnNameF)];
    plotPos := plotPos + 1;

    var yesNoStats, yesNoPanels := AnalyzeYesNoColumns(df, YesNoColumns, plotPos);
    if yesNoStats.None? {
      return None;
    }
    panels := panels + yesNoPanels;
    plotPos := plotPos + |yesNoStats.value|;

    var responses, responsePanels := AnalyzeResponseColumns(df, ResponseColumns, plotPos, scorer);
    if responses.None? {
      return None;
    }
    panels := panels + responsePanels;
    r := Some(AllStats(fStats, yesNoStats.value, responses.value.rates, responses.value.sentiments, panels));
    PanelLayout(df, scorer);
  }

  // ---------------------------------------------------------------- lemmas

  /** One step of the response loop over a present column whose rate is defined. */
  lemma ResponseLoopStep(t: Table, idx: seq<nat>, i: nat, scorer: string -> Score, prev: ResponseResults, rate: ResponseRateStats)
    requires WellFormed(t) && i < |idx| && idx[i] < |t.columns|
    requires ResponseLoop(t, idx[..i], scorer) == Some(prev)
    requires ResponseRateOf(t.names[idx[i]], Flags(t.columns[idx[i]])) == Some(rate)
    ensures ResponseLoop(t, idx[..i + 1], scorer)
      == Some(ResponseResults(prev.rates + [rate],
                              prev.sentiments + Found(ColumnSentiment(t.names[idx[i]], t.columns[idx[i]], scorer))))
  {
    var p := idx[..i + 1];
    assert p[..|p| - 1] == idx[..i];
    assert p[|p| - 1] == idx[i];
  }

  /** When every index is below the column count, all of them are present. */
  lemma {:induction false} AllPresent(idx: seq<nat>, n: nat)
    requires forall k :: 0 <= k < |idx| ==> idx[k] < n
    ensures Present(idx, n) == idx
  {
    if idx != [] {
      AllPresent(idx[..|idx| - 1], n);
    }
  }

  /** Every present index is below the column count. */
  lemma {:induction false} PresentBelow(idx: seq<nat>, n: nat)
    ensures forall k :: 0 <= k < |Present(idx, n)| ==> Present(idx, n)[k] < n
  {
    if idx != [] {
      PresentBelow(idx[..|idx| - 1], n);
    }
  }

  /** An index is present exactly when it is listed and below the column count. */
  lemma {:induction false} PresentComplete(idx: seq<nat>, n: nat)
    ensures forall x :: x in Present(idx, n) <==> x in idx && x < n
  {
    if idx != [] {
      PresentComplete(idx[..|idx| - 1], n);
      assert idx == idx[..|idx| - 1] + [idx[|idx| - 1]];
    }
  }

  /** In an increasing list, the present indices are the leading ones below the column count. */
  lemma PresentLeading(idx: seq<nat>, n: nat)
    requires Increasing(idx)
    ensures forall k :: 0 <= k < |idx| ==> (k < |Present(idx, n)| <==> idx[k] < n)
  {
    var p := Present(idx, n);
    PresentIsPrefix(idx, n);
    PresentBelow(idx, n);
    PresentComplete(idx, n);
    forall k | 0 <= k < |idx| ensures k < |p| <==> idx[k] < n {
      if k < |p| {
        assert p[k] == idx[k];
      }
    }
  }

  /** When no index is below the column count, none is present. */
  lemma {:induction false} NonePresent(idx: seq<nat>, n: nat)
    requires forall k :: 0 <= k < |idx| ==> idx[k] >= n
    ensures Present(idx, n) == []
  {
    if idx != [] {
      NonePresent(idx[..|idx| - 1], n);
    }
  }

  /** One index below the column count makes the present list non-empty. */
  lemma {:induction false} PresentNonEmpty(idx: seq<nat>, i: nat, n: nat)
    requires i < |idx| && idx[i] < n
    ensures Present(idx, n) != []
  {
    if i < |idx| - 1 {
      PresentNonEmpty(idx[..|idx| - 1], i, n);
    }
  }

  /** With increasing indices, the present ones are a prefix of the list: those below the column count. */
  lemma {:induction false} PresentIsPrefix(idx: seq<nat>, n: nat)
    requires Increasing(idx)
    ensures Present(idx, n) == idx[..|Present(idx, n)|]
  {
    if idx != [] {
      var init, last := idx[..|idx| - 1], idx[|idx| - 1];
      if last < n {
        AllPresent(init, n);
        assert idx == init + [last];
      } else {
        PresentIsPrefix(init, n);
      }
    }
  }

  /** Yes/No columns exist exactly when the table has more than 6 columns, response columns when more than 7. */
  lemma PresentColumns(n: nat)
    ensures Present(YesNoColumns, n) == [] <==> n <= 6
    ensures Present(ResponseColumns, n) == [] <==> n <= 7
    ensures |Present(YesNoColumns, n)| <= 5 && |Present(ResponseColumns, n)| <= 6
  {
    if n > 6 { PresentNonEmpty(YesNoColumns, 0, n); } else { NonePresent(YesNoColumns, n); }
    if n > 7 { PresentNonEmpty(ResponseColumns, 0, n); } else { NonePresent(ResponseColumns, n); }
  }

  /** One more Yes/No column analysed: its statistics are appended. */
  lemma YesNoColumnStep(t: Table, done: seq<nat>, c: nat, stats: seq<YesNoStats>, s: YesNoStats)
    requires WellFormed(t) && InTable(t, done) && c < |t.columns|
    requires YesNoPart(t, done) == Some(stats)
    requires AnalyzeYesNo(t.names[c], t.columns[c]) == Some(s)
    ensures InTable(t, done + [c])
    ensures YesNoPart(t, done + [c]) == Some(stats + [s])
  {
    assert |t.columns[c]| > 0;
    var d := done + [c];
    var want := seq(|d|, k requires 0 <= k < |d| => YesNoOf(t, d[k]));
    forall k | 0 <= k < |d| ensures want[k] == (stats + [s])[k] {
      if k < |done| {
        assert d[k] == done[k] && stats[k] == YesNoOf(t, done[k]);
      }
    }
    assert want == stats + [s];
  }

  /** One more Yes/No pie, at the position after the previous ones. */
  lemma YesNoPanelsSnoc(yn: seq<YesNoStats>, s: YesNoStats, first: nat)
    ensures YesNoPanels(yn + [s], first) == YesNoPanels(yn, first) + [Panel(first + |yn|, YesNoPie, s.columnName)]
  {
    assert (yn + [s])[..|yn|] == yn;
  }

  /**
   * One more response column analysed: its response rate is appended, and
   * its sentiment summary when it has one.
   */
  lemma ResponseColumnStep(t: Table, done: seq<nat>, c: nat, acc: ResponseResults, rate: ResponseRateStats,
                           scorer: string -> Score)
    requires WellFormed(t) && InTable(t, done) && c < |t.columns|
    requires ResponsePart(t, done, scorer) == Some(acc)
    requires ResponseRateOf(t.names[c], Flags(t.columns[c])) == Some(rate)
    ensures InTable(t, done + [c])
    ensures ResponsePart(t, done + [c], scorer) ==
      Some(ResponseResults(acc.rates + [rate], acc.sentiments + Found(ColumnSentiment(t.names[c], t.columns[c], scorer))))
  {
    assert |t.columns[c]| > 0;
    var d := done + [c];
    assert d[..|done|] == done;
    var want := seq(|d|, k requires 0 <= k < |d| => RateOf(t, d[k]));
    forall k | 0 <= k < |d| ensures want[k] == (acc.rates + [rate])[k] {
      if k < |done| {
        assert d[k] == done[k] && acc.rates[k] == RateOf(t, done[k]);
      }
    }
    assert want == acc.rates + [rate];
  }

  /** Once a prefix of the index list raises, so does the whole list. */
  lemma {:induction false} YesNoLoopStaysNone(t: Table, idx: seq<nat>, j: nat)
    requires WellFormed(t) && j <= |idx|
    requires YesNoLoop(t, idx[..j]).None?
    ensures YesNoLoop(t, idx).None?
  {
    if j == |idx| {
      assert idx[..j] == idx;
    } else {
      var init := idx[..|idx| - 1];
      assert init[..j] == idx[..j];
      YesNoLoopStaysNone(t, init, j);
    }
  }

  /**
   * The loop computes the declarative result: the Yes/No part of the indices
   * below the column count.
   */
  lemma {:induction false} YesNoLoopIsPart(t: Table, idx: seq<nat>)
    requires WellFormed(t)
    ensures InTable(t, Present(idx, |t.columns|))
    ensures YesNoLoop(t, idx) == YesNoPart(t, Present(idx, |t.columns|))
  {
    PresentBelow(idx, |t.columns|);
    if idx != [] {
      var n := |t.columns|;
      var init, c := idx[..|idx| - 1], idx[|idx| - 1];
      YesNoLoopIsPart(t, init);
      var done := Present(init, n);
      YesNoPartFails(t, done);
      if c < n {
        assert Present(idx, n) == done + [c];
        var prev := YesNoLoop(t, init);
        var st := AnalyzeYesNo(t.names[c], t.columns[c]);
        YesNoPartFails(t, done + [c]);
        if prev.Some? && st.Some? {
          YesNoColumnStep(t, done, c, prev.value, st.value);
        }
      } else {
        assert Present(idx, n) == done + [];
        assert done + [] == done;
      }
    }
  }

  /** Once a prefix of the index list raises, so does the whole list. */
  lemma {:induction false} ResponseLoopStaysNone(t: Table, idx: seq<nat>, j: nat, scorer: string -> Score)
    requires WellFormed(t) && j <= |idx|
    requires ResponseLoop(t, idx[..j], scorer).None?
    ensures ResponseLoop(t, idx, scorer).None?
  {
    if j == |idx| {
      assert idx[..j] == idx;
    } else {
      var init := idx[..|idx| - 1];
      assert init[..j] == idx[..j];
      ResponseLoopStaysNone(t, init, j, scorer);
    }
  }

  /**
   * The loop computes the declarative result: the response part of the
   * indices below the column count.
   */
  lemma {:induction false} ResponseLoopIsPart(t: Table, idx: seq<nat>, scorer: string -> Score)
    requires WellFormed(t)
    ensures InTable(t, Present(idx, |t.columns|))
    ensures ResponseLoop(t, idx, scorer) == ResponsePart(t, Present(idx, |t.columns|), scorer)
  {
    PresentBelow(idx, |t.columns|);
    if idx != [] {
      var n := |t.columns|;
      var init, c := idx[..|idx| - 1], idx[|idx| - 1];
      ResponseLoopIsPart(t, init, scorer);
      var done := Present(init, n);
      ResponsePartFails(t, done, scorer);
      if c < n {
        assert Present(idx, n) == done + [c];
        var prev := ResponseLoop(t, init, scorer);
        var rate := ResponseRateOf(t.names[c], Flags(t.columns[c]));
        ResponsePartFails(t, done + [c], scorer);
        if prev.Some? && rate.Some? {
          ResponseColumnStep(t, done, c, prev.value, rate.value, scorer);
        }
      } else {
        assert Present(idx, n) == done + [];
        assert done + [] == done;
      }
    }
  }

  /** One more response pie, at the position after the previous ones. */
  lemma ResponsePanelsSnoc(rs: seq<ResponseRateStats>, r: ResponseRateStats, first: nat)
    ensures ResponsePanels(rs + [r], first) == ResponsePanels(rs, first) + [Panel(first + |rs|, ResponsePie, r.columnName)]
  {
    assert (rs + [r])[..|rs|] == rs;
  }

  /**
   * The Yes/No part raises exactly when there is a column to analyse and no
   * row; otherwise it holds one statistics entry per column, in order.
   */
  lemma YesNoPartFails(t: Table, idx: seq<nat>)
    requires WellFormed(t) && InTable(t, idx)
    ensures YesNoPart(t, idx).None? <==> t.rows == 0 && idx != []
    ensures YesNoPart(t, idx).Some? ==> |YesNoPart(t, idx).value| == |idx|
    ensures YesNoPart(t, idx).Some? ==> forall k :: 0 <= k < |idx| ==>
      Some(YesNoPart(t, idx).value[k]) == AnalyzeYesNo(t.names[idx[k]], t.columns[idx[k]])
  {
    if idx != [] && t.rows > 0 {
      forall k | 0 <= k < |idx|
        ensures Some(YesNoPart(t, idx).value[k]) == AnalyzeYesNo(t.names[idx[k]], t.columns[idx[k]])
      {
        assert |t.columns[idx[k]]| > 0;
      }
    }
  }

  /**
   * The response part raises exactly when there is a column to analyse and
   * no row; otherwise it holds one response-rate entry per column, in order.
   */
  lemma ResponsePartFails(t: Table, idx: seq<nat>, scorer: string -> Score)
    requires WellFormed(t) && InTable(t, idx)
    ensures ResponsePart(t, idx, scorer).None? <==> t.rows == 0 && idx != []
    ensures ResponsePart(t, idx, scorer).Some? ==> |ResponsePart(t, idx, scorer).value.rates| == |idx|
    ensures ResponsePart(t, idx, scorer).Some? ==> forall k :: 0 <= k < |idx| ==>
      Some(ResponsePart(t, idx, scorer).value.rates[k]) == ResponseRateOf(t.names[idx[k]], Flags(t.columns[idx[k]]))
  {
    if idx != [] && t.rows > 0 {
      forall k | 0 <= k < |idx|
        ensures Some(ResponsePart(t, idx, scorer).value.rates[k]) == ResponseRateOf(t.names[idx[k]], Flags(t.columns[idx[k]]))
      {
        assert |t.columns[idx[k]]| > 0;
      }
    }
  }

  /** At most one sentiment summary per response column, each of them consistent. */
  lemma {:induction false} SentimentsConsistent(t: Table, idx: seq<nat>, scorer: string -> Score)
    requires WellFormed(t) && InTable(t, idx)
    ensures |Sentiments(t, idx, scorer)| <= |idx|
    ensures forall k :: 0 <= k < |Sentiments(t, idx, scorer)| ==> Consistent(Sentiments(t, idx, scorer)[k])
  {
    if idx != [] {
      var init, c := idx[..|idx| - 1], idx[|idx| - 1];
      SentimentsConsistent(t, init, scorer);
      SummaryPresence(t.names[c], t.columns[c], scorer);
      var before, added := Sentiments(t, init, scorer), Found(ColumnSentiment(t.names[c], t.columns[c], scorer));
      forall k | 0 <= k < |before + added| ensures Consistent((before + added)[k]) {
        if k < |before| {
          assert (before + added)[k] == before[k];
        }
      }
    }
  }

  /** What a successful run is made of. */
  lemma AllColumnsParts(t: Table, scorer: string -> Score)
    requires WellFormed(t) && AllColumns(t, scorer).Some?
    ensures |t.columns| > CategoryColumn
    ensures InTable(t, Present(YesNoColumns, |t.columns|)) && InTable(t, Present(ResponseColumns, |t.columns|))
    ensures var st := AllColumns(t, scorer).value;
      && st.fStats == AnalyzeCategorical(t.names[CategoryColumn], t.columns[CategoryColumn])
      && YesNoPart(t, Present(YesNoColumns, |t.columns|)) == Some(st.yesNoStats)
      && ResponsePart(t, Present(ResponseColumns, |t.columns|), scorer) == Some(ResponseResults(st.responseStats, st.sentimentStats))
      && st.panels == Panels(t.names[CategoryColumn], st.yesNoStats, st.responseStats)
  {
    PresentBelow(YesNoColumns, |t.columns|);
    PresentBelow(ResponseColumns, |t.columns|);
  }

  lemma {:induction false} YesNoPanelsAt(yn: seq<YesNoStats>, first: nat)
    ensures |YesNoPanels(yn, first)| == |yn|
    ensures forall k :: 0 <= k < |yn| ==> YesNoPanels(yn, first)[k] == Panel(first + k, YesNoPie, yn[k].columnName)
  {
    if yn != [] {
      YesNoPanelsAt(yn[..|yn| - 1], first);
    }
  }

  lemma {:induction false} ResponsePanelsAt(rs: seq<ResponseRateStats>, first: nat)
    ensures |ResponsePanels(rs, first)| == |rs|
    ensures forall k :: 0 <= k < |rs| ==> ResponsePanels(rs, first)[k] == Panel(first + k, ResponsePie, rs[k].columnName)
  {
    if rs != [] {
      ResponsePanelsAt(rs[..|rs| - 1], first);
    }
  }

  /**
   * What each panel of the figure is: the categorical bars first, then one
   * pie per Yes/No column at positions from 2, then one pie per response
   * column at the positions after those.
   */
  lemma PanelsAt(fName: string, yn: seq<YesNoStats>, rs: seq<ResponseRateStats>)
    ensures |Panels(fName, yn, rs)| == 1 + |yn| + |rs|
    ensures Panels(fName, yn, rs)[0] == Panel(1, CategoryBars, fName)
    ensures forall k :: 0 <= k < |yn| ==> Panels(fName, yn, rs)[1 + k] == Panel(k + 2, YesNoPie, yn[k].columnName)
    ensures forall k :: 0 <= k < |rs| ==> Panels(fName, yn, rs)[1 + |yn| + k] == Panel(|yn| + k + 2, ResponsePie, rs[k].columnName)
  {
    YesNoPanelsAt(yn, 2);
    ResponsePanelsAt(rs, |yn| + 2);
    YesNoPiesAt(fName, yn, rs);
    ResponsePiesAt(fName, yn, rs);
  }

  /** The Yes/No pies follow the bars. */
  lemma YesNoPiesAt(fName: string, yn: seq<YesNoStats>, rs: seq<ResponseRateStats>)
    ensures |Panels(fName, yn, rs)| == 1 + |yn| + |rs|
    ensures forall k :: 0 <= k < |yn| ==> Panels(fName, yn, rs)[1 + k] == Panel(k + 2, YesNoPie, yn[k].columnName)
  {
    var b, c := YesNoPanels(yn, 2), ResponsePanels(rs, |yn| + 2);
    YesNoPanelsAt(yn, 2);
    ResponsePanelsAt(rs, |yn| + 2);
    var ps := [Panel(1, CategoryBars, fName)] + b + c;
    assert ps == Panels(fName, yn, rs);
    forall k | 0 <= k < |yn| ensures ps[1 + k] == Panel(k + 2, YesNoPie, yn[k].columnName) {
      assert ps[1 + k] == b[k];
    }
  }

  /** The response pies follow the Yes/No pies. */
  lemma ResponsePiesAt(fName: string, yn: seq<YesNoStats>, rs: seq<ResponseRateStats>)
    ensures |Panels(fName, yn, rs)| == 1 + |yn| + |rs|
    ensures forall k :: 0 <= k < |rs| ==> Panels(fName, yn, rs)[1 + |yn| + k] == Panel(|yn| + k + 2, ResponsePie, rs[k].columnName)
  {
    var b, c := YesNoPanels(yn, 2), ResponsePanels(rs, |yn| + 2);
    YesNoPanelsAt(yn, 2);
    ResponsePanelsAt(rs, |yn| + 2);
    var ps := [Panel(1, CategoryBars, fName)] + b + c;
    assert ps == Panels(fName, yn, rs);
    forall k | 0 <= k < |rs| ensures ps[1 + |yn| + k] == Panel(|yn| + k + 2, ResponsePie, rs[k].columnName) {
      assert ps[1 + |yn| + k] == c[k];
    }
  }

  /** The panels take the consecutive grid positions 1, 2, 3, ... in the order they are drawn. */
  lemma PanelPositions(fName: string, yn: seq<YesNoStats>, rs: seq<ResponseRateStats>)
    ensures forall k :: 0 <= k < |Panels(fName, yn, rs)| ==> Panels(fName, yn, rs)[k].position == k + 1
  {
    var ps := Panels(fName, yn, rs);
    PanelsAt(fName, yn, rs);
    forall k | 0 <= k < |ps| ensures ps[k].position == k + 1 {
      if 1 <= k < 1 + |yn| {
        var j := k - 1;
        assert ps[1 + j] == Panel(j + 2, YesNoPie, yn[j].columnName);
      } else if 1 + |yn| <= k {
        var j := k - 1 - |yn|;
        assert ps[1 + |yn| + j] == Panel(|yn| + j + 2, ResponsePie, rs[j].columnName);
      }
    }
  }

  /**
   * The figure of a successful run is laid out as PanelsAt describes, and
   * never has more panels than the 4 x 3 grid holds.
   */
  lemma PanelLayout(t: Table, scorer: string -> Score)
    requires WellFormed(t) && AllColumns(t, scorer).Some?
    ensures var st := AllColumns(t, scorer).value;
      && st.panels == Panels(t.names[CategoryColumn], st.yesNoStats, st.responseStats)
      && |st.panels| == 1 + |st.yesNoStats| + |st.responseStats| <= TotalPlots
  {
    var n := |t.columns|;
    var st := AllColumns(t, scorer).value;
    AllColumnsParts(t, scorer);
    PresentColumns(n);
    YesNoPartFails(t, Present(YesNoColumns, n));
    ResponsePartFails(t, Present(ResponseColumns, n), scorer);
    PanelsAt(t.names[CategoryColumn], st.yesNoStats, st.responseStats);
  }

  lemma IndexListsIncreasing()
    ensures Increasing(YesNoColumns) && Increasing(ResponseColumns)
  {
  }

  /**
   * Dispatch of the Yes/No columns: those analysed are a prefix of the index
   * list, the ones below the column count, and each gives its own statistics,
   * in order.
   */
  lemma YesNoDispatch(t: Table, scorer: string -> Score)
    requires WellFormed(t) && AllColumns(t, scorer).Some?
    ensures InTable(t, Present(YesNoColumns, |t.columns|))
    ensures var st, yi := AllColumns(t, scorer).value, Present(YesNoColumns, |t.columns|);
      && yi == YesNoColumns[..|yi|]
      && (forall k :: 0 <= k < |YesNoColumns| ==> (k < |yi| <==> YesNoColumns[k] < |t.columns|))
      && |st.yesNoStats| == |yi|
      && (forall k :: 0 <= k < |yi| ==> Some(st.yesNoStats[k]) == AnalyzeYesNo(t.names[yi[k]], t.columns[yi[k]]))
  {
    AllColumnsParts(t, scorer);
    IndexListsIncreasing();
    PresentIsPrefix(YesNoColumns, |t.columns|);
    PresentLeading(YesNoColumns, |t.columns|);
    YesNoPartFails(t, Present(YesNoColumns, |t.columns|));
  }

  /**
   * Dispatch of the response columns: those analysed are a prefix of the
   * index list, the ones below the column count, and each gives its own
   * response rate, in order.
   */
  lemma ResponseDispatch(t: Table, scorer: string -> Score)
    requires WellFormed(t) && AllColumns(t, scorer).Some?
    ensures InTable(t, Present(ResponseColumns, |t.columns|))
    ensures var st, ri := AllColumns(t, scorer).value, Present(ResponseColumns, |t.columns|);
      && ri == ResponseColumns[..|ri|]
      && (forall k :: 0 <= k < |ResponseColumns| ==> (k < |ri| <==> ResponseColumns[k] < |t.columns|))
      && |st.responseStats| == |ri|
      && (forall k :: 0 <= k < |ri| ==> Some(st.responseStats[k]) == ResponseRateOf(t.names[ri[k]], Flags(t.columns[ri[k]])))
  {
    AllColumnsParts(t, scorer);
    IndexListsIncreasing();
    PresentIsPrefix(ResponseColumns, |t.columns|);
    PresentLeading(ResponseColumns, |t.columns|);
    ResponsePartFails(t, Present(ResponseColumns, |t.columns|), scorer);
  }

  /** Sentiment summaries: at most one per response column, each consistent. */
  lemma SentimentSummaries(t: Table, scorer: string -> Score)
    requires WellFormed(t) && AllColumns(t, scorer).Some?
    ensures var st := AllColumns(t, scorer).value;
      && |st.sentimentStats| <= |st.responseStats|
      && (forall k :: 0 <= k < |st.sentimentStats| ==> Consistent(st.sentimentStats[k]))
  {
    var n := |t.columns|;
    AllColumnsParts(t, scorer);
    ResponsePartFails(t, Present(ResponseColumns, n), scorer);
    SentimentsConsistent(t, Present(ResponseColumns, n), scorer);
  }
}
