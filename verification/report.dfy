/**
 * `analyze_excel`: the success gate and the text report. The report is kept
 * as the sequence of pieces the source appends to `analysis_text`, one
 * piece per line or block; how numbers are printed (one or two decimals)
 * is not modelled.
 */
module Report {
  import opened Wrappers
  import opened Numbers
  import opened Categorical
  import opened YesNo
  import opened Responses
  import opened Sentiment
  import opened Analysis

  datatype Section = YesNoSection | CategorySection | ResponseSection | SentimentSection

  /** The label after the average polarity: "(Generally Positive)", "(Generally Negative)" or "(Generally Neutral)". */
  datatype Mood = GenerallyPositive | GenerallyNegative | GenerallyNeutral

  /** One category of a distribution: its name, its count and its percentage. */
  datatype Entry = Entry(category: string, count: nat, percent: Fraction)

  /** Plain: "<category>: <n> responses (<p>%)"; Bulleted: the same behind "  - ", with the category title-cased. */
  datatype Style = Plain | Bulleted

  datatype Piece =
    | Title                                  // "COMPLETE ANALYSIS RESULTS:"
    | Heading(section: Section)              // the section's name over a rule of 50 '='
    | ColumnLine(name: string)               // "Column: <name>"
    | Count(entry: Entry, style: Style)
    | CategoryCaption                        // "Category Distribution:"
    | RateBlock(stats: ResponseRateStats)    // column, total, answered and empty cells, response rate
    | AnalyzedLine(count: nat)               // "Responses Analyzed: <n>"
    | PolarityLine(avg: Fraction, mood: Mood)
    | SubjectivityLine(avg: Fraction)
    | SentimentCaption                       // "Sentiment Distribution:"
    | Blank
    | Closing                                // the note that the combined figure was saved

  /** What a report announces, in order: its section headings and the columns it describes. */
  datatype Mark = SectionMark(section: Section) | ColumnMark(column: string)

  /** What `analyze_excel` returns: the report, or "Analysis failed to generate results.". */
  datatype Outcome = Written(text: seq<Piece>) | Failed

  /**
   * The label of an average polarity: the source compares the average with
   * 0. An average's denominator is the positive number of scores, so its
   * sign is that of its numerator.
   */
  function Interpret(avg: Fraction): (m: Mood)
    ensures avg.denominator > 0 ==> (m == GenerallyPositive <==> Value(avg) > 0.0)
    ensures avg.denominator > 0 ==> (m == GenerallyNegative <==> Value(avg) < 0.0)
    ensures avg.denominator > 0 ==> (m == GenerallyNeutral <==> Value(avg) == 0.0)
  {
    assert avg.denominator > 0 ==> Value(avg) * (avg.denominator as real) == avg.numerator;
    if avg.numerator > 0.0 then GenerallyPositive
    else if avg.numerator < 0.0 then GenerallyNegative
    else GenerallyNeutral
  }

  /** The counts of a Yes/No column, in the order of its `counts` dict. */
  function YesNoEntries(s: YesNoStats): seq<Entry>
  {
    [Entry("Yes", s.yes, s.yesPercent), Entry("No", s.no, s.noPercent),
     Entry(NoResponse, s.noResponse, s.noResponsePercent)]
  }

  /** Every category count has its percentage. */
  predicate Aligned(f: CategoricalStats)
  {
    |f.percentages| == |f.counts|
  }

  /** The category counts of column F, each with its percentage. */
  function CategoryEntries(f: CategoricalStats): (es: seq<Entry>)
    requires Aligned(f)
    ensures |es| == |f.counts|
  {
    seq(|f.counts|, k requires 0 <= k < |f.counts| =>
      Entry(f.counts[k].category, f.counts[k].count, f.percentages[k]))
  }

  /** The sum of the distribution, which the source divides by. */
  function DistributionTotal(s: SentimentSummary): nat
  {
    s.positive + s.negative + s.neutral
  }

  /** The sentiment distribution, in the order of its dict, each share taken against the distribution's sum. */
  function SentimentEntries(s: SentimentSummary): seq<Entry>
  {
    var total := DistributionTotal(s);
    [Entry("Positive", s.positive, Percent(s.positive, total)),
     Entry("Negative", s.negative, Percent(s.negative, total)),
     Entry("Neutral", s.neutral, Percent(s.neutral, total))]
  }

  function EntryLines(es: seq<Entry>, style: Style): (r: seq<Piece>)
    ensures |r| == |es|
  {
    if es == [] then [] else EntryLines(es[..|es| - 1], style) + [Count(es[|es| - 1], style)]
  }

  function YesNoBlock(s: YesNoStats): seq<Piece>
  {
    [ColumnLine(s.columnName)] + EntryLines(YesNoEntries(s), Plain) + [Blank]
  }

  function YesNoBody(yn: seq<YesNoStats>): seq<Piece>
  {
    if yn == [] then [] else YesNoBody(yn[..|yn| - 1]) + YesNoBlock(yn[|yn| - 1])
  }

  function CategoryBody(f: CategoricalStats): seq<Piece>
    requires Aligned(f)
  {
    [ColumnLine(f.columnName)] + [CategoryCaption] + EntryLines(CategoryEntries(f), Plain) + [Blank]
  }

  function ResponseBody(rs: seq<ResponseRateStats>): seq<Piece>
  {
    if rs == [] then [] else ResponseBody(rs[..|rs| - 1]) + [RateBlock(rs[|rs| - 1])]
  }

  /** The lines between a scored column's name and its distribution. */
  function SentimentFigures(s: SentimentSummary): seq<Piece>
  {
    [AnalyzedLine(s.responsesAnalyzed), PolarityLine(s.avgPolarity, Interpret(s.avgPolarity)),
     SubjectivityLine(s.avgSubjectivity), SentimentCaption]
  }

  function SentimentBlock(s: SentimentSummary): seq<Piece>
  {
    [ColumnLine(s.columnName)] + SentimentFigures(s) + EntryLines(SentimentEntries(s), Bulleted) + [Blank]
  }

  function SentimentBody(ss: seq<SentimentSummary>): seq<Piece>
  {
    if ss == [] then [] else SentimentBody(ss[..|ss| - 1]) + SentimentBlock(ss[|ss| - 1])
  }

  function YesNoSectionText(yn: seq<YesNoStats>): seq<Piece>
  {
    [Heading(YesNoSection)] + YesNoBody(yn)
  }

  function CategorySectionText(f: CategoricalStats): seq<Piece>
    requires Aligned(f)
  {
    [Heading(CategorySection)] + CategoryBody(f)
  }

  function ResponseSectionText(rs: seq<ResponseRateStats>): seq<Piece>
  {
    [Heading(ResponseSection)] + ResponseBody(rs)
  }

  /** The sentiment section appears only when some column was scored. */
  function SentimentSectionText(ss: seq<SentimentSummary>): seq<Piece>
  {
    if ss == [] then [] else [Heading(SentimentSection)] + SentimentBody(ss)
  }

  /** The whole report, section by section. */
  function ReportFor(st: AllStats): (r: seq<Piece>)
    requires Aligned(st.fStats)
    ensures |r| >= 4 && r[0] == Title && r[|r| - 1] == Closing
  {
    [Title]
    + YesNoSectionText(st.yesNoStats)
    + CategorySectionText(st.fStats)
    + ResponseSectionText(st.responseStats)
    + SentimentSectionText(st.sentimentStats)
    + [Closing]
  }

  function MarkOf(p: Piece): seq<Mark>
  {
    match p
    case Heading(section) => [SectionMark(section)]
    case ColumnLine(name) => [ColumnMark(name)]
    case RateBlock(stats) => [ColumnMark(stats.columnName)]
    case _ => []
  }

  /** The headings and the column names of a sequence of pieces, in order. */
  function Outline(ps: seq<Piece>): seq<Mark>
  {
    if ps == [] then [] else Outline(ps[..|ps| - 1]) + MarkOf(ps[|ps| - 1])
  }

  /** The column names of Yes/No statistics, as outline marks. */
  function YesNoMarks(yn: seq<YesNoStats>): seq<Mark>
  {
    seq(|yn|, k requires 0 <= k < |yn| => ColumnMark(yn[k].columnName))
  }

  function ResponseMarks(rs: seq<ResponseRateStats>): seq<Mark>
  {
    seq(|rs|, k requires 0 <= k < |rs| => ColumnMark(rs[k].columnName))
  }

  function SentimentMarks(ss: seq<SentimentSummary>): seq<Mark>
  {
    seq(|ss|, k requires 0 <= k < |ss| => ColumnMark(ss[k].columnName))
  }

  /** Appends one line per entry, in order. */
  method AddEntries(text: seq<Piece>, es: seq<Entry>, style: Style) returns (out: seq<Piece>)
    ensures out == text + EntryLines(es, style)
  {
    out := text;
    for i := 0 to |es|
      invariant out == text + EntryLines(es[..i], style)
    {
      assert es[..i + 1][..i] == es[..i];
      out := out + [Count(es[i], style)];
    }
    assert es[..|es|] == es;
  }

  method AddYesNoSection(text: seq<Piece>, yn: seq<YesNoStats>) returns (out: seq<Piece>)
    ensures out == text + YesNoBody(yn)
  {
    out := text;
    for i := 0 to |yn|
      invariant out == text + YesNoBody(yn[..i])
    {
      assert yn[..i + 1][..i] == yn[..i];
      var stats := yn[i];
      out := out + [ColumnLine(stats.columnName)];
      out := AddEntries(out, YesNoEntries(stats), Plain);
      out := out + [Blank];
    }
    assert yn[..|yn|] == yn;
  }

  method AddResponseSection(text: seq<Piece>, rs: seq<ResponseRateStats>) returns (out: seq<Piece>)
    ensures out == text + ResponseBody(rs)
  {
    out := text;
    for i := 0 to |rs|
      invariant out == text + ResponseBody(rs[..i])
    {
      assert rs[..i + 1][..i] == rs[..i];
      out := out + [RateBlock(rs[i])];
    }
    assert rs[..|rs|] == rs;
  }

  /** The lines on one scored column: its averages, the label of its polarity, and its distribution. */
  method AddSentimentBlock(text: seq<Piece>, stats: SentimentSummary) returns (out: seq<Piece>)
    ensures out == text + SentimentBlock(stats)
  {
    var mood := Interpret(stats.avgPolarity);
    out := text + [ColumnLine(stats.columnName), AnalyzedLine(stats.responsesAnalyzed),
                   PolarityLine(stats.avgPolarity, mood), SubjectivityLine(stats.avgSubjectivity),
                   SentimentCaption];
    out := AddEntries(out, SentimentEntries(stats), Bulleted);
    out := out + [Blank];
  }

  method AddSentimentSection(text: seq<Piece>, ss: seq<SentimentSummary>) returns (out: seq<Piece>)
    ensures out == text + SentimentBody(ss)
  {
    out := text;
    for i := 0 to |ss|
      invariant out == text + SentimentBody(ss[..i])
    {
      assert ss[..i + 1][..i] == ss[..i];
      out := AddSentimentBlock(out, ss[i]);
    }
    assert ss[..|ss|] == ss;
  }

  /** Builds `analysis_text` section by section. */
  method BuildReport(st: AllStats) returns (analysisText: seq<Piece>)
    requires Aligned(st.fStats)
    ensures analysisText == ReportFor(st)
  {
    analysisText := [Title];
    var before := analysisText;
    analysisText := analysisText + [Heading(YesNoSection)];
    analysisText := AddYesNoSection(analysisText, st.yesNoStats);
    assert analysisText == before + YesNoSectionText(st.yesNoStats);
    before := analysisText;
    analysisText := analysisText + [Heading(CategorySection)];
    analysisText := analysisText + [ColumnLine(st.fStats.columnName), CategoryCaption];
    analysisText := AddEntries(analysisText, CategoryEntries(st.fStats), Plain);
    analysisText := analysisText + [Blank];
    assert analysisText == before + CategorySectionText(st.fStats);
    before := analysisText;
    analysisText := analysisText + [Heading(ResponseSection)];
    analysisText := AddResponseSection(analysisText, st.responseStats);
    assert analysisText == before + ResponseSectionText(st.responseStats);
    before := analysisText;
    if st.sentimentStats != [] {
      analysisText := analysisText + [Heading(SentimentSection)];
      analysisText := AddSentimentSection(analysisText, st.sentimentStats);
    }
    assert analysisText == before + SentimentSectionText(st.sentimentStats);
    analysisText := analysisText + [Closing];
  }

  /**
   * `analyze_excel` once the sheet is read: analyses every column and writes
   * the report when the analysis succeeded and found at least one Yes/No and
   * one response column, that is, for a sheet with rows and at least 8
   * columns.
   */
  method AnalyzeExcel(df: Table, scorer: string -> Score) returns (o: Outcome)
    requires WellFormed(df)
    ensures o.Written? <==> |df.columns| > ResponseColumns[0] && df.rows > 0
    ensures o.Written? ==> AllColumns(df, scorer).Some? && o.text == ReportFor(AllColumns(df, scorer).value)
  {
    var r := AnalyzeAllColumns(df, scorer);
    GateIff(df, scorer);
    if r.Some? && r.value.yesNoStats != [] && r.value.responseStats != [] {
      var text := BuildReport(r.value);
      return Written(text);
    }
    return Failed;
  }

  // ---------------------------------------------------------------- lemmas

  /**
   * The report is written exactly for a sheet with rows and at least 8
   * columns: fewer columns leave the Yes/No or the response list empty, and
   * no rows make the analysis fail. Column F's statistics are then aligned.
   */
  lemma GateIff(t: Table, scorer: string -> Score)
    requires WellFormed(t)
    ensures var r := AllColumns(t, scorer);
      (r.Some? && r.value.yesNoStats != [] && r.value.responseStats != [])
        <==> |t.columns| > ResponseColumns[0] && t.rows > 0
    ensures AllColumns(t, scorer).Some? ==> Aligned(AllColumns(t, scorer).value.fStats)
  {
    PresentColumns(|t.columns|);
    if AllColumns(t, scorer).Some? {
      YesNoDispatch(t, scorer);
      ResponseDispatch(t, scorer);
      AllColumnsParts(t, scorer);
    }
  }

  /** A report is outlined piece by piece. */
  lemma {:induction false} OutlineAppend(a: seq<Piece>, b: seq<Piece>)
    ensures Outline(a + b) == Outline(a) + Outline(b)
  {
    if b == [] {
      assert a + b == a;
      NothingAppended(Outline(a));
    } else {
      var init, last := b[..|b| - 1], b[|b| - 1];
      assert (a + b)[..|a + b| - 1] == a + init;
      assert (a + b)[|a + b| - 1] == last;
      OutlineAppend(a, init);
      assert Outline(b) == Outline(init) + MarkOf(last);
      Associative(Outline(a), Outline(init), MarkOf(last));
    }
  }

  // Sequence algebra only: stated as a lemma so that the outline proofs stay small.
  lemma Associative(x: seq<Mark>, y: seq<Mark>, z: seq<Mark>)
    ensures x + y + z == x + (y + z)
  {
  }

  lemma OutlineOne(p: Piece)
    ensures Outline([p]) == MarkOf(p)
  {
    assert [p][..0] == [];
  }

  /** Pieces that are neither headings nor column lines add nothing to the outline. */
  lemma {:induction false} OutlineUnmarked(ps: seq<Piece>)
    requires forall i :: 0 <= i < |ps| ==> MarkOf(ps[i]) == []
    ensures Outline(ps) == []
  {
    if ps != [] {
      OutlineUnmarked(ps[..|ps| - 1]);
    }
  }

  /** A piece that is neither a heading nor a column line adds nothing at the end... */
  lemma OutlineSnocUnmarked(a: seq<Piece>, p: Piece)
    requires MarkOf(p) == []
    ensures Outline(a + [p]) == Outline(a)
  {
    assert (a + [p])[..|a|] == a;
    NothingAppended(Outline(a));
  }

  /** ...nor at the front. */
  lemma OutlineConsUnmarked(p: Piece, a: seq<Piece>)
    requires MarkOf(p) == []
    ensures Outline([p] + a) == Outline(a)
  {
    OutlineAppend([p], a);
    OutlineOne(p);
    assert [] + Outline(a) == Outline(a);
  }

  /** Count lines name no column. */
  lemma {:induction false} EntriesUnmarked(es: seq<Entry>, style: Style)
    ensures Outline(EntryLines(es, style)) == []
  {
    if es != [] {
      var init := es[..|es| - 1];
      EntriesUnmarked(init, style);
      OutlineAppend(EntryLines(init, style), [Count(es[|es| - 1], style)]);
      OutlineOne(Count(es[|es| - 1], style));
    }
  }

  /** A Yes/No block names its column and nothing else. */
  lemma YesNoBlockOutline(s: YesNoStats)
    ensures Outline(YesNoBlock(s)) == [ColumnMark(s.columnName)]
  {
    var lines := EntryLines(YesNoEntries(s), Plain);
    OutlineSnocUnmarked([ColumnLine(s.columnName)] + lines, Blank);
    OutlineAppend([ColumnLine(s.columnName)], lines);
    EntriesUnmarked(YesNoEntries(s), Plain);
    OutlineOne(ColumnLine(s.columnName));
    NothingAppended([ColumnMark(s.columnName)]);
  }

  /** A block that opens with a column line and holds nothing else marked names that column only. */
  lemma HeadedOutline(name: string, mid: seq<Piece>, lines: seq<Piece>)
    requires Outline(mid) == [] && Outline(lines) == []
    ensures Outline([ColumnLine(name)] + mid + lines + [Blank]) == [ColumnMark(name)]
  {
    OutlineSnocUnmarked([ColumnLine(name)] + mid + lines, Blank);
    OutlineAppend([ColumnLine(name)] + mid, lines);
    OutlineAppend([ColumnLine(name)], mid);
    OutlineOne(ColumnLine(name));
    NothingAppended([ColumnMark(name)]);
  }

  /** Column F's section names its column and nothing else. */
  lemma CategoryBodyOutline(f: CategoricalStats)
    requires Aligned(f)
    ensures Outline(CategoryBody(f)) == [ColumnMark(f.columnName)]
  {
    OutlineOne(CategoryCaption);
    EntriesUnmarked(CategoryEntries(f), Plain);
    HeadedOutline(f.columnName, [CategoryCaption], EntryLines(CategoryEntries(f), Plain));
  }

  /** The figures of a sentiment block name nothing. */
  lemma FiguresUnmarked(s: SentimentSummary)
    ensures Outline(SentimentFigures(s)) == []
  {
    OutlineUnmarked(SentimentFigures(s));
  }

  /** A sentiment block names its column and nothing else. */
  lemma SentimentBlockOutline(s: SentimentSummary)
    ensures Outline(SentimentBlock(s)) == [ColumnMark(s.columnName)]
  {
    FiguresUnmarked(s);
    EntriesUnmarked(SentimentEntries(s), Bulleted);
    HeadedOutline(s.columnName, SentimentFigures(s), EntryLines(SentimentEntries(s), Bulleted));
  }

  /** The marks of all but the last, then the last one's. */
  lemma YesNoMarksSnoc(yn: seq<YesNoStats>)
    requires yn != []
    ensures YesNoMarks(yn) == YesNoMarks(yn[..|yn| - 1]) + [ColumnMark(yn[|yn| - 1].columnName)]
  {
    var init := YesNoMarks(yn[..|yn| - 1]);
    forall k | 0 <= k < |yn| ensures YesNoMarks(yn)[k] == (init + [ColumnMark(yn[|yn| - 1].columnName)])[k] {
      if k < |yn| - 1 {
        assert init[k] == ColumnMark(yn[k].columnName);
      }
    }
  }

  /** The Yes/No section describes its columns in order, one block each. */
  lemma {:induction false} YesNoOutline(yn: seq<YesNoStats>)
    ensures Outline(YesNoBody(yn)) == YesNoMarks(yn)
  {
    if yn != [] {
      var init := yn[..|yn| - 1];
      YesNoOutline(init);
      YesNoBlockOutline(yn[|yn| - 1]);
      OutlineAppend(YesNoBody(init), YesNoBlock(yn[|yn| - 1]));
      YesNoMarksSnoc(yn);
    }
  }

  /** The response section describes its columns in order, one block each. */
  lemma {:induction false} ResponseOutline(rs: seq<ResponseRateStats>)
    ensures Outline(ResponseBody(rs)) == ResponseMarks(rs)
  {
    if rs != [] {
      var init := rs[..|rs| - 1];
      ResponseOutline(init);
      OutlineAppend(ResponseBody(init), [RateBlock(rs[|rs| - 1])]);
      OutlineOne(RateBlock(rs[|rs| - 1]));
    }
  }

  /** The marks of all but the last, then the last one's. */
  lemma SentimentMarksSnoc(ss: seq<SentimentSummary>)
    requires ss != []
    ensures SentimentMarks(ss) == SentimentMarks(ss[..|ss| - 1]) + [ColumnMark(ss[|ss| - 1].columnName)]
  {
    var init := SentimentMarks(ss[..|ss| - 1]);
    forall k | 0 <= k < |ss| ensures SentimentMarks(ss)[k] == (init + [ColumnMark(ss[|ss| - 1].columnName)])[k] {
      if k < |ss| - 1 {
        assert init[k] == ColumnMark(ss[k].columnName);
      }
    }
  }

  /** The sentiment section describes its columns in order, one block each. */
  lemma {:induction false} SentimentOutline(ss: seq<SentimentSummary>)
    ensures Outline(SentimentBody(ss)) == SentimentMarks(ss)
  {
    if ss != [] {
      var init := ss[..|ss| - 1];
      SentimentOutline(init);
      SentimentBlockOutline(ss[|ss| - 1]);
      OutlineAppend(SentimentBody(init), SentimentBlock(ss[|ss| - 1]));
      SentimentMarksSnoc(ss);
    }
  }

  lemma YesNoSectionOutline(yn: seq<YesNoStats>)
    ensures Outline(YesNoSectionText(yn)) ==
      [SectionMark(YesNoSection)] + YesNoMarks(yn)
  {
    YesNoOutline(yn);
    OutlineOne(Heading(YesNoSection));
    OutlineAppend([Heading(YesNoSection)], YesNoBody(yn));
  }

  lemma CategorySectionOutline(f: CategoricalStats)
    requires Aligned(f)
    ensures Outline(CategorySectionText(f)) == [SectionMark(CategorySection), ColumnMark(f.columnName)]
  {
    CategoryBodyOutline(f);
    OutlineOne(Heading(CategorySection));
    OutlineAppend([Heading(CategorySection)], CategoryBody(f));
  }

  lemma ResponseSectionOutline(rs: seq<ResponseRateStats>)
    ensures Outline(ResponseSectionText(rs)) ==
      [SectionMark(ResponseSection)] + ResponseMarks(rs)
  {
    ResponseOutline(rs);
    OutlineOne(Heading(ResponseSection));
    OutlineAppend([Heading(ResponseSection)], ResponseBody(rs));
  }

  lemma SentimentSectionOutline(ss: seq<SentimentSummary>)
    ensures Outline(SentimentSectionText(ss)) ==
      if ss == [] then []
      else [SectionMark(SentimentSection)] + SentimentMarks(ss)
  {
    if ss != [] {
      SentimentOutline(ss);
      OutlineOne(Heading(SentimentSection));
      OutlineAppend([Heading(SentimentSection)], SentimentBody(ss));
    }
  }

  /**
   * The report's outline: the Yes/No, column F and response sections, in
   * that order, each naming its columns in the order they were analysed,
   * then the sentiment section exactly when some response column was scored.
   */
  lemma ReportOutline(st: AllStats)
    requires Aligned(st.fStats)
    ensures Outline(ReportFor(st)) ==
      [SectionMark(YesNoSection)]
      + YesNoMarks(st.yesNoStats)
      + [SectionMark(CategorySection), ColumnMark(st.fStats.columnName)]
      + ([SectionMark(ResponseSection)]
         + ResponseMarks(st.responseStats))
      + (if st.sentimentStats == [] then []
         else [SectionMark(SentimentSection)]
              + SentimentMarks(st.sentimentStats))
  {
    var y, c, r, s := YesNoSectionText(st.yesNoStats), CategorySectionText(st.fStats),
                      ResponseSectionText(st.responseStats), SentimentSectionText(st.sentimentStats);
    YesNoSectionOutline(st.yesNoStats);
    CategorySectionOutline(st.fStats);
    ResponseSectionOutline(st.responseStats);
    SentimentSectionOutline(st.sentimentStats);
    OutlineFramed(y, c, r, s);
  }

  /** The title and the closing note add nothing to the outline. */
  lemma OutlineFramed(y: seq<Piece>, c: seq<Piece>, r: seq<Piece>, s: seq<Piece>)
    ensures Outline([Title] + y + c + r + s + [Closing]) == Outline(y) + Outline(c) + Outline(r) + Outline(s)
  {
    OutlineSnocUnmarked([Title] + y + c + r + s, Closing);
    OutlineAppend([Title] + y + c + r, s);
    OutlineAppend([Title] + y + c, r);
    OutlineAppend([Title] + y, c);
    OutlineConsUnmarked(Title, y);
  }

  // Sequence algebra only: stated as a lemma so that the outline proofs stay small.
  lemma NothingAppended(ms: seq<Mark>)
    ensures ms + [] == ms
  {
  }

  /**
   * The distribution of a summary sums to the number of responses analysed,
   * at least 1, so the division in the report cannot fail, and its three
   * shares add up to 100.
   */
  lemma DistributionShares(s: SentimentSummary)
    requires Consistent(s)
    ensures DistributionTotal(s) == s.responsesAnalyzed >= 1
    ensures var es := SentimentEntries(s);
      && |es| == 3
      && es[0].count + es[1].count + es[2].count == DistributionTotal(s)
      && Value(es[0].percent) + Value(es[1].percent) + Value(es[2].percent) == 100.0
  {
    PercentsOfPartition(s.positive, s.negative, s.neutral, DistributionTotal(s));
  }

  /**
   * In the report on a sheet, every sentiment distribution has a positive
   * total and shares that add up to 100.
   */
  lemma ReportShares(t: Table, scorer: string -> Score)
    requires WellFormed(t) && AllColumns(t, scorer).Some?
    ensures var ss := AllColumns(t, scorer).value.sentimentStats;
      forall k :: 0 <= k < |ss| ==>
        var es := SentimentEntries(ss[k]);
        && DistributionTotal(ss[k]) >= 1
        && Value(es[0].percent) + Value(es[1].percent) + Value(es[2].percent) == 100.0
  {
    var ss := AllColumns(t, scorer).value.sentimentStats;
    SentimentSummaries(t, scorer);
    forall k | 0 <= k < |ss|
      ensures DistributionTotal(ss[k]) >= 1
      ensures var es := SentimentEntries(ss[k]);
        Value(es[0].percent) + Value(es[1].percent) + Value(es[2].percent) == 100.0
    {
      DistributionShares(ss[k]);
    }
  }

  /** When every score agrees in sign, the sum of the polarities has that sign. */
  lemma {:induction false} UnanimousSum(ss: seq<Score>)
    requires |ss| > 0
    ensures (forall i :: 0 <= i < |ss| ==> ss[i].polarity > 0.0) ==> SumPolarity(ss) > 0.0
    ensures (forall i :: 0 <= i < |ss| ==> ss[i].polarity < 0.0) ==> SumPolarity(ss) < 0.0
    ensures (forall i :: 0 <= i < |ss| ==> ss[i].polarity == 0.0) ==> SumPolarity(ss) == 0.0
  {
    var rest := ss[1..];
    if rest != [] {
      UnanimousSum(rest);
      assert forall i :: 0 <= i < |rest| ==> rest[i] == ss[i + 1];
    }
  }

  /**
   * A column whose every response is positive (negative, neutral) is
   * labelled Generally Positive (Negative, Neutral).
   */
  lemma UnanimousMood(name: string, ss: seq<Score>)
    requires |ss| > 0
    ensures (forall i :: 0 <= i < |ss| ==> ss[i].polarity > 0.0) ==>
      Interpret(Summarize(name, ss).avgPolarity) == GenerallyPositive
    ensures (forall i :: 0 <= i < |ss| ==> ss[i].polarity < 0.0) ==>
      Interpret(Summarize(name, ss).avgPolarity) == GenerallyNegative
    ensures (forall i :: 0 <= i < |ss| ==> ss[i].polarity == 0.0) ==>
      Interpret(Summarize(name, ss).avgPolarity) == GenerallyNeutral
  {
    UnanimousSum(ss);
  }
}
