# Survey analyzer: a verified model of its counting core

`csv_analyzer.py` reads a survey sheet and analyses a fixed set of its columns.

- Column 5 holds categories. The analyzer counts its labels and orders them by count.
- Columns 6, 8, 10, 12 and 14 are Yes/No questions. For each, it counts Yes, No and No Response.
- Columns 7, 9, 11, 13, 15 and 16 are open responses. For each, it measures the response rate and, through a sentiment scorer, the tone of the answers.

Every column analysed gets one panel of a combined figure. The whole analysis is then written out as a text report, provided the sheet has at least one row and at least 8 columns (so that column F and some Yes/No and response columns were analysed).

This project models that core in Dafny and proves what it promises. The modules follow the program's structure:

- `Wrappers`: an `Option` type.
- `Numbers`: percentages and averages, kept as exact fractions (numerator over denominator).
- `Cells`: a sheet cell and Python's `strip`/`lower` on its text.
- `Categorical`: the category column, i.e. `fillna("No Answer")`, strip, `value_counts` and the percentages.
- `YesNo`: the Yes/No columns.
- `Responses`: the `has_content` flags and the response rate.
- `Sentiment`: `analyze_sentiment` and `analyze_column_sentiment`. The scorer is a parameter.
- `Analysis`: `analyze_all_columns`, i.e. the dispatch over the fixed index lists, the stats lists, the panel counter and the failure path.
- `Report`: `analyze_excel`, i.e. the success gate and the report. The report is built by repeated appends, one piece per line or block of the report (a section title and its rule are one piece, and so are the average polarity and its label).

Where code works by loops that append, the model keeps the loop: `AnalyzeColumnSentiment`, `HasContentFlags`, `AnalyzeYesNoColumns`, `AnalyzeResponseColumns` and the report builders. Each loop is a method proved against a specification function.

Cells are `Missing`, `Str(text)` (a Python `str`) or `NonStr(shown)` (any other value, carried as its `str(...)` form). A sheet is a `Table` of named columns of equal length.

Two behaviours of the code worth knowing:

- A whitespace-only category cell is trimmed to the empty label `""` and counted under it. It is not counted as "No Answer"; only missing cells are (`Categorical.LabelsKeepCase`, `Categorical.MissingIsNoAnswer`).
- An empty or blank string response is passed to the scorer, because it is a `str`. It therefore counts towards `responses_analyzed`, although it is not an answered cell (`Sentiment.BlankIsScoredNotAnswered`).

## Model

| member | source | states |
|---|---|---|
| Numbers.PercentBounds | csv_analyzer.py:187 | a percentage of a part of a non-empty whole lies in [0, 100]; it is 100 exactly when the part is the whole and 0 exactly when the part is 0 |
| Numbers.PercentsOfPartition | csv_analyzer.py:140 | three counts that partition a total have percentages adding up to 100 |
| Numbers.MeanBounds | csv_analyzer.py:36-37 | an average of a total of values within [lo, hi] lies within [lo, hi] |
| Cells.StripPadded | csv_analyzer.py:78 | `strip` of whitespace, then text without whitespace at either end, then whitespace, is that text |
| Cells.StripFacts | csv_analyzer.py:163-164 | a stripped text is no longer than the original and has no whitespace at either end; it is empty exactly when the original is all whitespace |
| Cells.NormalFormPadded | csv_analyzer.py:114 | stripping and lower-casing padded text gives the lower-cased text |
| Categorical.TallyCorrect | csv_analyzer.py:79 | the per-label tally has distinct labels, one per label occurring, each with its number of occurrences, and its counts add up to the number of cells |
| Categorical.BumpKeeps | csv_analyzer.py:79 | counting one more cell keeps a tally a tally of the longer column |
| Categorical.SortCorrect | csv_analyzer.py:79 | ordering by count is a permutation of the tally, keeps its total and leaves the counts non-increasing |
| Categorical.SortDistinct | csv_analyzer.py:79 | ordering by count keeps the labels distinct |
| Categorical.ValueCounts | csv_analyzer.py:79 | `value_counts` has distinct labels in non-increasing count order, and its counts add up to the row count (the rest is `Categorical.ValueCountsCorrect`) |
| Categorical.ValueCountsCorrect | csv_analyzer.py:78-79 | `value_counts`: distinct labels in non-increasing count order, exactly the labels that occur, each with its positive number of occurrences, the counts adding up to the row count |
| Categorical.AnalyzeCategorical | csv_analyzer.py:76-99 | column F's statistics: its name, its `value_counts`, and one percentage per category, each its count over the row count times 100 |
| Categorical.CategoricalPercentagesSum | csv_analyzer.py:98 | with rows, the category percentages add up to 100 |
| Categorical.MissingIsNoAnswer | csv_analyzer.py:78 | a missing cell is counted as "No Answer" |
| Categorical.LabelsKeepCase | csv_analyzer.py:78 | any other cell is counted under its trimmed text, with its case kept; blank text becomes the label "" |
| Categorical.RedIsCountedAsRed | csv_analyzer.py:78 | "Red" is counted as "Red" |
| Categorical.PaddedRedIsCountedAsRed | csv_analyzer.py:78 | " red " is counted as "red", a label distinct from "Red" |
| YesNo.AnalyzeYesNo | csv_analyzer.py:114-140 | a Yes/No column fails (division by zero) exactly when it has no rows; otherwise Yes and No count the cells whose normal form is "yes" and "no", No Response counts the rest, the three add up to the row count, and each percentage is its count over the rows times 100 |
| YesNo.Partition | csv_analyzer.py:117-119 | every cell is "yes", "no" or neither, so the three counts add up to the number of cells |
| YesNo.YesNoPercentagesSum | csv_analyzer.py:140 | the three percentages of a column with rows add up to 100 |
| YesNo.YesInAnyCase | csv_analyzer.py:114 | any casing of "yes", with any surrounding whitespace, counts as Yes |
| YesNo.NoInAnyCase | csv_analyzer.py:114 | any casing of "no", with any surrounding whitespace, counts as No |
| YesNo.UpperCaseYes | csv_analyzer.py:114 | "YES" counts as Yes |
| YesNo.PaddedYes | csv_analyzer.py:114 | " yes " counts as Yes |
| YesNo.CapitalisedYes | csv_analyzer.py:114 | "Yes" counts as Yes |
| YesNo.MissingIsNoResponse | csv_analyzer.py:114 | a missing cell is neither Yes nor No |
| Responses.HasContentFlags | csv_analyzer.py:158-164 | the loop builds one flag per cell, in order, each saying whether that cell was answered |
| Responses.CountTrueExtremes | csv_analyzer.py:167 | `sum(has_content)` is 0 exactly when no cell was answered and the cell count exactly when every cell was |
| Responses.ResponseRateOf | csv_analyzer.py:166-188 | a response column fails exactly when it has no rows; otherwise answered is the number of answered cells, answered plus not answered is the total, and the rate is answered over total times 100 |
| Responses.ResponseRateBounds | csv_analyzer.py:187 | the response rate lies in [0, 100]; it is 100 exactly when every cell is answered and 0 exactly when none is |
| Responses.BlankIsNotAnswered | csv_analyzer.py:163-164 | a whitespace-only cell is not answered |
| Responses.NanIsNotAnswered | csv_analyzer.py:164 | "nan" in any casing and with any padding is not answered |
| Responses.VisibleTextIsAnswered | csv_analyzer.py:163-164 | any other text with a visible character is answered, whether or not it is a `str` |
| Sentiment.AnalyzeColumnSentiment | csv_analyzer.py:19-54 | the loop collects the score of every scored cell in order; the result is None when there is none, and otherwise the averages and the distribution of those scores |
| Sentiment.AnalyzeSentiment | csv_analyzer.py:8-17 | a cell gets a score exactly when it is a present `str`, and the score is the scorer's on its text; any other cell gets None |
| Sentiment.ScoredTexts | csv_analyzer.py:13-14 | there is no scored text exactly when no cell is a present `str` |
| Sentiment.ScorerSeesOnlyScoredTexts | csv_analyzer.py:24-30 | the collected scores are the scorer applied to the texts of the present `str` cells, in column order, and to nothing else |
| Sentiment.DistributionPartition | csv_analyzer.py:40-42 | positive, negative and neutral add up to the number of scores |
| Sentiment.SumsBounded | csv_analyzer.py:36-37 | the sums of in-range scores are bounded by the number of scores |
| Sentiment.AveragesInRange | csv_analyzer.py:36-37 | averages of in-range scores are in range: polarity in [-1, 1] and subjectivity in [0, 1] |
| Sentiment.SummaryPresence | csv_analyzer.py:32-46 | a column has a summary exactly when it holds a scored cell; the summary then carries the column name, analyses one score per scored cell, and its distribution adds up to that number |
| Sentiment.ColumnAveragesInRange | csv_analyzer.py:36-37 | when the scorer keeps to its ranges, a column's averages do too |
| Sentiment.BlankIsScoredNotAnswered | csv_analyzer.py:13 | a blank string is scored but not answered |
| Sentiment.NonStringIsAnsweredNotScored | csv_analyzer.py:13 | a value that is not a string, such as a number, is answered but not scored |
| Analysis.AnalyzeYesNoColumns | csv_analyzer.py:104-144 | the loop over the Yes/No index list yields the statistics of exactly the present columns, in list order, or fails when a column fails; it adds one pie panel per column at consecutive positions |
| Analysis.AnalyzeResponseColumns | csv_analyzer.py:147-196 | the loop over the response index list yields the rate of exactly the present columns, in list order, and the sentiment summaries of those that have one, or fails; it adds one pie panel per column |
| Analysis.AnalyzeAllColumns | csv_analyzer.py:56-208 | the result is None exactly when column 5 is missing, or when a Yes/No column is present but there are no rows; the panel count is 1 + Yes/No columns + response columns, at most 12 |
| Analysis.YesNoLoopIsPart | csv_analyzer.py:108-142 | appending column by column gives the statistics of the present columns, in list order |
| Analysis.ResponseLoopIsPart | csv_analyzer.py:152-194 | appending column by column gives the rates and the sentiment summaries of the present columns, in list order |
| Analysis.YesNoLoopStaysNone | csv_analyzer.py:206-208 | once a Yes/No column has failed, the whole loop has failed |
| Analysis.ResponseLoopStaysNone | csv_analyzer.py:206-208 | once a response column has failed, the whole loop has failed |
| Analysis.PresentIsPrefix | csv_analyzer.py:108-109 | the columns processed are a prefix of the index list |
| Analysis.PresentColumns | csv_analyzer.py:104-109 | no Yes/No column is processed exactly when there are at most 6 columns, no response column exactly when there are at most 7; at most 5 and 6 are processed |
| Analysis.PresentComplete | csv_analyzer.py:108-109 | an index is processed exactly when it is listed and below the column count |
| Analysis.PresentBelow | csv_analyzer.py:109 | every processed index is below the column count |
| Analysis.PresentLeading | csv_analyzer.py:108-109 | in an increasing index list, the k-th index is processed exactly when it is below the column count, so the processed ones are the leading ones |
| Analysis.AllPresent | csv_analyzer.py:109 | when every index is below the column count, all are processed, in order |
| Analysis.NonePresent | csv_analyzer.py:109 | when no index is below the column count, none is processed |
| Analysis.YesNoPartFails | csv_analyzer.py:140 | the Yes/No statistics fail exactly when there are no rows and some column is processed; otherwise there is one entry per processed column, that column's statistics |
| Analysis.ResponsePartFails | csv_analyzer.py:187 | the response rates fail exactly when there are no rows and some column is processed; otherwise there is one rate per processed column |
| Analysis.SentimentsConsistent | csv_analyzer.py:192-194 | at most one summary per processed response column, each consistent: at least one score, averages over that many scores, a distribution adding up to it |
| Analysis.AllColumnsParts | csv_analyzer.py:95-204 | a successful result holds column 5's statistics, the Yes/No and response results of the processed columns, and the panel list |
| Analysis.AllColumns | csv_analyzer.py:56-208 | the analysis fails exactly when column 5 is missing (IndexError), or when there are no rows and column 6 exists (division by zero); its parts are stated by `Analysis.AllColumnsParts` and its panels by `Analysis.PanelLayout` |
| Analysis.PanelsAt | csv_analyzer.py:72-196 | panel 1 is column 5's bars, then one pie per Yes/No column, then one per response column |
| Analysis.PanelPositions | csv_analyzer.py:72-196 | the k-th panel is drawn at position k + 1 |
| Analysis.PanelLayout | csv_analyzer.py:63 | the panel count is 1 + Yes/No stats + response stats, at most the 12 subplots |
| Analysis.YesNoDispatch | csv_analyzer.py:104-142 | the Yes/No stats are those of the leading entries of 6, 8, 10, 12, 14 below the column count, one per column, in that order; the k-th listed index has stats exactly when it is below the column count |
| Analysis.ResponseDispatch | csv_analyzer.py:147-189 | the response stats are those of the leading entries of 7, 9, 11, 13, 15, 16 below the column count, one per column, in that order; the k-th listed index has a rate exactly when it is below the column count |
| Analysis.SentimentSummaries | csv_analyzer.py:191-194 | there are no more sentiment summaries than response columns, and every one is consistent |
| Report.AddEntries | csv_analyzer.py:236-238 | the loop adds one count line per dict entry, in order |
| Report.AddYesNoSection | csv_analyzer.py:234-239 | per Yes/No column: its name, its Yes, No and No Response lines, a blank line |
| Report.AddResponseSection | csv_analyzer.py:254-261 | one block per response column, in order |
| Report.AddSentimentBlock | csv_analyzer.py:267-285 | a scored column's name, count, average polarity with its label, average subjectivity and its three distribution lines |
| Report.AddSentimentSection | csv_analyzer.py:266-285 | one such block per summary, in order |
| Report.ReportFor | csv_analyzer.py:229-287 | the report opens with the title and ends with the closing note; the sections between are ordered as `Report.ReportOutline` states |
| Report.BuildReport | csv_analyzer.py:229-287 | the report is the title, then the Yes/No, column F and response sections, the sentiment section only when there are summaries, then the closing note |
| Report.AnalyzeExcel | csv_analyzer.py:225-296 | a report is written exactly when the sheet has rows and at least 8 columns, and it is the report of the analysis; otherwise the analysis "failed to generate results" |
| Report.GateIff | csv_analyzer.py:227 | the analysis succeeds with non-empty Yes/No and response lists exactly when there are at least 8 columns and some rows |
| Report.Interpret | csv_analyzer.py:271-276 | the label is Generally Positive, Negative or Neutral exactly as the average polarity is above, below or at 0 |
| Report.UnanimousSum | csv_analyzer.py:36 | when all polarities share a sign, their sum has it |
| Report.UnanimousMood | csv_analyzer.py:271-276 | a column whose every response is positive, negative or neutral gets that label |
| Report.ReportOutline | csv_analyzer.py:229-287 | the report's headings and column names in order: Yes/No section and its columns, column F section and its column, response section and its columns, then the sentiment section and its columns exactly when there are summaries |
| Report.YesNoSectionOutline | csv_analyzer.py:232-239 | the Yes/No section is its heading followed by its columns' names, in order |
| Report.CategorySectionOutline | csv_analyzer.py:242-249 | the column F section is its heading followed by its column's name |
| Report.ResponseSectionOutline | csv_analyzer.py:252-261 | the response section is its heading followed by its columns' names, in order |
| Report.SentimentSectionOutline | csv_analyzer.py:263-285 | the sentiment section is empty without summaries, and otherwise its heading followed by its columns' names |
| Report.DistributionShares | csv_analyzer.py:280-284 | a summary's distribution adds up to its responses analysed, at least 1, so the division cannot fail; its three shares add up to 100 |
| Report.ReportShares | csv_analyzer.py:280-284 | every sentiment distribution in a sheet's report has a positive total and shares adding up to 100 |

## Left out

- Reading the workbook, the existence check on the path, the output directory and its timestamp, and writing `complete_analysis.txt` (csv_analyzer.py:210-222, 289-292). These are I/O. The model starts from the table read and ends with the report text.
- The "Error: ..." results of `analyze_excel` (csv_analyzer.py:298-299). They arise only from the I/O above: once the sheet is read, building the report raises nothing (`Report.ReportShares` shows its one division is by at least 1).
- Every matplotlib call: figure, subplots, bars, pies, colours, `savefig` (csv_analyzer.py:66-93, 128-135, 172-180, 199-202). Only the panel counter `plot_pos` is kept, as the list of panels with their positions. Every matplotlib call is assumed not to raise, including `plt.pie` on a dict view (csv_analyzer.py:130) and `savefig`. The failure cases of `Analysis.AllColumns` and `Analysis.AnalyzeAllColumns` are exact only under that assumption, and the figure path is then always truthy.
- TextBlob's computation of polarity and subjectivity (csv_analyzer.py:16-17). The scorer is any total function from text to a score. Its ranges are a hypothesis of the lemmas that need them.
- Binary floating point, and the `:.1f`/`:.2f` formatting of numbers. Percentages and averages are exact quotients, so "adds up to 100" holds exactly rather than within rounding. The report pieces carry the numbers, not their printed form, and the fixed texts of titles and rules are left out.
- Non-string cells carry one text, used both for pandas `astype(str)` (csv_analyzer.py:78, 114) and for Python `str(value)` (csv_analyzer.py:163). These can differ, for instance for dates (`2020-01-01` against `2020-01-01 00:00:00`). The model may therefore differ from the program in the label text of a non-string category or Yes/No cell.
- Unicode in `strip()` and `lower()`: whitespace is the ASCII whitespace, and lower-casing maps only A-Z.
- The order pandas gives to equal counts in `value_counts`: the model keeps first occurrence first (a stable sort), which pandas does not promise.
- `print` progress messages and the interactive `__main__` file picker (csv_analyzer.py:301-333).
- The polarity label is computed from the sign of the average's numerator. This matches the source's comparison of the average with 0 whenever the denominator is positive, as it is for every summary (the contract of `Report.Interpret`).
