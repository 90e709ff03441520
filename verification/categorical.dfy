/**
 * The categorical column (index 5): every cell gets a label, labels are
 * counted case-sensitively, and the counts are listed by decreasing count
 * (pandas' `value_counts`), with a percentage of the row count beside each.
 */
module Categorical {
  import opened Cells
  import opened Numbers

  /** What a missing cell is counted as. */
  const NoAnswer: string := "No Answer"

  /** A cell's label: `fillna("No Answer").astype(str).str.strip()`. */
  function Label(c: Cell): string
  {
    Strip(Filled(c, NoAnswer))
  }

  function Labels(cells: seq<Cell>): seq<string>
  {
    seq(|cells|, i requires 0 <= i < |cells| => Label(cells[i]))
  }

  /** How often `l` occurs in `ls`. */
  function Occurrences(ls: seq<string>, l: string): (n: nat)
    ensures n <= |ls|
    ensures n > 0 <==> l in ls
  {
    if ls == [] then 0
    else
      var init := ls[..|ls| - 1];
      assert ls == init + [ls[|ls| - 1]];
      Occurrences(init, l) + (if ls[|ls| - 1] == l then 1 else 0)
  }

  datatype LabelCount = LabelCount(category: string, count: nat)

  function LabelsOf(es: seq<LabelCount>): seq<string>
  {
    seq(|es|, i requires 0 <= i < |es| => es[i].category)
  }

  /** The sum of the counts. */
  function Total(es: seq<LabelCount>): nat
  {
    if es == [] then 0 else es[0].count + Total(es[1..])
  }

  predicate DistinctLabels(es: seq<LabelCount>)
  {
    forall i, j :: 0 <= i < j < |es| ==> es[i].category != es[j].category
  }

  /** Labels listed in non-increasing order of their counts. */
  predicate NonIncreasing(es: seq<LabelCount>)
  {
    forall i, j :: 0 <= i < j < |es| ==> es[i].count >= es[j].count
  }

  /** The position of the first entry for `l`, or `|es|` when there is none. */
  function Find(es: seq<LabelCount>, l: string): (k: nat)
    ensures k <= |es|
    ensures k < |es| ==> es[k].category == l
    ensures forall i :: 0 <= i < k ==> es[i].category != l
  {
    if es == [] then 0
    else if es[0].category == l then 0
    else 1 + Find(es[1..], l)
  }

  /** Counts one more occurrence of `l`: its entry goes up by one, or a new entry is added at the end. */
  function Bump(es: seq<LabelCount>, l: string): seq<LabelCount>
  {
    var k := Find(es, l);
    if k < |es| then es[k := LabelCount(l, es[k].count + 1)] else es + [LabelCount(l, 1)]
  }

  /** Counts per distinct label, labels in order of first occurrence. */
  function Tally(ls: seq<string>): seq<LabelCount>
  {
    if ls == [] then [] else Bump(Tally(ls[..|ls| - 1]), ls[|ls| - 1])
  }

  /** Places `e` before the first entry whose count is not larger, so equal counts keep their order. */
  function Insert(e: LabelCount, s: seq<LabelCount>): seq<LabelCount>
  {
    if s == [] then [e]
    else if s[0].count <= e.count then [e] + s
    else [s[0]] + Insert(e, s[1..])
  }

  /** A stable sort by decreasing count. */
  function SortByCount(s: seq<LabelCount>): seq<LabelCount>
  {
    if s == [] then [] else Insert(s[0], SortByCount(s[1..]))
  }

  /** `cleaned_responses.value_counts()`. */
  function ValueCounts(cells: seq<Cell>): (vc: seq<LabelCount>)
    ensures DistinctLabels(vc) && NonIncreasing(vc) && Total(vc) == |cells|
  {
    var t := Tally(Labels(cells));
    TallyCorrect(Labels(cells));
    SortCorrect(t);
    SortDistinct(t);
    SortByCount(t)
  }

  /** The statistics kept for the categorical column. */
  datatype CategoricalStats = CategoricalStats(
    columnName: string,
    counts: seq<LabelCount>,
    percentages: seq<Fraction>)

  /** One percentage per count, taken against the row count. */
  function Shares(counts: seq<LabelCount>, rows: nat): (r: seq<Fraction>)
    ensures |r| == |counts|
  {
    if counts == [] then [] else [Percent(counts[0].count, rows)] + Shares(counts[1..], rows)
  }

  /** The sum of the values of a list of quotients, none of them over zero. */
  function SumValues(fs: seq<Fraction>): real
    requires forall i :: 0 <= i < |fs| ==> fs[i].denominator > 0
  {
    if fs == [] then 0.0 else Value(fs[0]) + SumValues(fs[1..])
  }

  /**
   * The categorical analysis. With no rows there is nothing to count and
   * nothing is divided (pandas divides an empty series without complaint).
   */
  function AnalyzeCategorical(name: string, cells: seq<Cell>): (st: CategoricalStats)
    ensures st.columnName == name && st.counts == ValueCounts(cells)
    ensures |st.percentages| == |st.counts|
    ensures forall i :: 0 <= i < |st.counts| ==> st.percentages[i] == Percent(st.counts[i].count, |cells|)
  {
    var counts := ValueCounts(cells);
    if |cells| > 0 then SharesAt(counts, |cells|); CategoricalStats(name, counts, Shares(counts, |cells|))
    else assert Labels(cells) == []; CategoricalStats(name, counts, [])
  }

  // ---------------------------------------------------------------- lemmas

  lemma {:induction false} TotalAppend(es: seq<LabelCount>, e: LabelCount)
    ensures Total(es + [e]) == Total(es) + e.count
  {
    if es != [] {
      assert (es + [e])[1..] == es[1..] + [e];
      TotalAppend(es[1..], e);
    }
  }

  lemma {:induction false} TotalUpdate(es: seq<LabelCount>, k: nat, e: LabelCount)
    requires k < |es|
    ensures Total(es[k := e]) == Total(es) - es[k].count + e.count
  {
    if k > 0 {
      assert es[k := e][1..] == es[1..][k - 1 := e];
      TotalUpdate(es[1..], k - 1, e);
    }
  }

  /** Tally counts every label exactly, once per distinct label, and the counts add up to the number of labels. */
  lemma {:induction false} TallyCorrect(ls: seq<string>)
    ensures DistinctLabels(Tally(ls))
    ensures Total(Tally(ls)) == |ls|
    ensures forall i :: 0 <= i < |Tally(ls)| ==> Tally(ls)[i].count == Occurrences(ls, Tally(ls)[i].category)
    ensures forall l :: l in ls <==> l in LabelsOf(Tally(ls))
  {
    if ls != [] {
      var init, x := ls[..|ls| - 1], ls[|ls| - 1];
      assert ls == init + [x];
      TallyCorrect(init);
      BumpKeeps(init, Tally(init), x);
    }
  }

  /** `t` is a tally of `ls`: one entry per distinct label, each with its number of occurrences. */
  ghost predicate Tallies(ls: seq<string>, t: seq<LabelCount>)
  {
    && DistinctLabels(t)
    && Total(t) == |ls|
    && (forall i :: 0 <= i < |t| ==> t[i].count == Occurrences(ls, t[i].category))
    && (forall l :: l in ls <==> l in LabelsOf(t))
  }

  /** Counting one more label keeps a tally a tally. */
  lemma BumpKeeps(ls: seq<string>, t: seq<LabelCount>, x: string)
    requires Tallies(ls, t)
    ensures Tallies(ls + [x], Bump(t, x))
  {
    assert (ls + [x])[..|ls|] == ls;
    if Find(t, x) < |t| {
      BumpExisting(ls, t, x);
    } else {
      BumpNew(ls, t, x);
    }
  }

  lemma BumpExisting(ls: seq<string>, t: seq<LabelCount>, x: string)
    requires Tallies(ls, t) && Find(t, x) < |t|
    requires forall l :: Occurrences(ls + [x], l) == Occurrences(ls, l) + (if x == l then 1 else 0)
    ensures Tallies(ls + [x], Bump(t, x))
  {
    var k := Find(t, x);
    var e := LabelCount(x, t[k].count + 1);
    TotalUpdate(t, k, e);
    assert LabelsOf(t)[k] == x;
    assert LabelsOf(t[k := e]) == LabelsOf(t);
  }

  lemma BumpNew(ls: seq<string>, t: seq<LabelCount>, x: string)
    requires Tallies(ls, t) && Find(t, x) == |t|
    requires forall l :: Occurrences(ls + [x], l) == Occurrences(ls, l) + (if x == l then 1 else 0)
    ensures Tallies(ls + [x], Bump(t, x))
  {
    var e := LabelCount(x, 1);
    TotalAppend(t, e);
    assert x !in LabelsOf(t);
    assert LabelsOf(t + [e]) == LabelsOf(t) + [x];
  }


  /** No entry of `s` carries the label `l`. */
  predicate Absent(s: seq<LabelCount>, l: string)
  {
    forall j :: 0 <= j < |s| ==> s[j].category != l
  }

  lemma {:induction false} InsertPermutes(e: LabelCount, s: seq<LabelCount>)
    ensures multiset(Insert(e, s)) == multiset(s) + multiset{e}
    ensures Total(Insert(e, s)) == Total(s) + e.count
  {
    if s != [] && s[0].count > e.count {
      InsertPermutes(e, s[1..]);
      assert s == [s[0]] + s[1..];
    }
  }

  lemma InsertMembers(e: LabelCount, s: seq<LabelCount>)
    ensures forall x :: x in Insert(e, s) ==> x == e || x in s
  {
    InsertPermutes(e, s);
    forall x | x in Insert(e, s) ensures x == e || x in s {
      assert x in multiset(Insert(e, s));
    }
  }

  lemma {:induction false} InsertSorted(e: LabelCount, s: seq<LabelCount>)
    requires NonIncreasing(s)
    ensures NonIncreasing(Insert(e, s))
  {
    if s != [] && s[0].count > e.count {
      InsertSorted(e, s[1..]);
      InsertMembers(e, s[1..]);
      var rest := Insert(e, s[1..]);
      forall j | 0 <= j < |rest| ensures rest[j].count <= s[0].count {
        assert rest[j] in rest;
      }
    }
  }

  lemma {:induction false} InsertDistinct(e: LabelCount, s: seq<LabelCount>)
    requires DistinctLabels(s) && Absent(s, e.category)
    ensures DistinctLabels(Insert(e, s))
  {
    if s != [] && s[0].count > e.count {
      InsertDistinct(e, s[1..]);
      InsertMembers(e, s[1..]);
      var rest := Insert(e, s[1..]);
      forall j | 0 <= j < |rest| ensures rest[j].category != s[0].category {
        assert rest[j] in rest;
      }
    }
  }

  /** SortByCount returns a permutation of its input, in non-increasing count order. */
  lemma {:induction false} SortCorrect(s: seq<LabelCount>)
    ensures multiset(SortByCount(s)) == multiset(s)
    ensures Total(SortByCount(s)) == Total(s)
    ensures NonIncreasing(SortByCount(s))
  {
    if s != [] {
      var rest := SortByCount(s[1..]);
      SortCorrect(s[1..]);
      InsertPermutes(s[0], rest);
      InsertSorted(s[0], rest);
      assert s == [s[0]] + s[1..];
    }
  }

  lemma {:induction false} SortDistinct(s: seq<LabelCount>)
    requires DistinctLabels(s)
    ensures DistinctLabels(SortByCount(s))
  {
    if s != [] {
      var rest := SortByCount(s[1..]);
      SortDistinct(s[1..]);
      SortCorrect(s[1..]);
      forall j | 0 <= j < |rest| ensures rest[j].category != s[0].category {
        assert rest[j] in multiset(s[1..]);
        var m :| 0 <= m < |s[1..]| && s[1..][m] == rest[j];
        assert s[m + 1] == rest[j];
      }
      InsertDistinct(s[0], rest);
    }
  }

  /** Entries present in two permutations of each other carry the same labels. */
  lemma SameLabels(a: seq<LabelCount>, b: seq<LabelCount>)
    requires multiset(a) == multiset(b)
    ensures forall l :: l in LabelsOf(a) <==> l in LabelsOf(b)
  {
    forall l | l in LabelsOf(a) ensures l in LabelsOf(b) {
      var i :| 0 <= i < |a| && LabelsOf(a)[i] == l;
      assert a[i] in multiset(b);
      var j :| 0 <= j < |b| && b[j] == a[i];
      assert LabelsOf(b)[j] == l;
    }
    forall l | l in LabelsOf(b) ensures l in LabelsOf(a) {
      var i :| 0 <= i < |b| && LabelsOf(b)[i] == l;
      assert b[i] in multiset(a);
      var j :| 0 <= j < |a| && a[j] == b[i];
      assert LabelsOf(a)[j] == l;
    }
  }

  /**
   * The categorical counts: one entry per distinct label that occurs, each
   * with the number of cells carrying that label, in non-increasing count
   * order, adding up to the row count.
   */
  lemma ValueCountsCorrect(cells: seq<Cell>)
    ensures var vc := ValueCounts(cells);
      && DistinctLabels(vc)
      && NonIncreasing(vc)
      && Total(vc) == |cells|
      && (forall i :: 0 <= i < |vc| ==> vc[i].count == Occurrences(Labels(cells), vc[i].category) > 0)
      && (forall l :: l in Labels(cells) <==> l in LabelsOf(vc))
  {
    var ls := Labels(cells);
    var t := Tally(ls);
    TallyCorrect(ls);
    SortCorrect(t);
    SortDistinct(t);
    var vc := SortByCount(t);
    SameLabels(t, vc);
    forall i | 0 <= i < |vc| ensures vc[i].count == Occurrences(ls, vc[i].category) > 0 {
      assert vc[i] in multiset(t);
      var j :| 0 <= j < |t| && t[j] == vc[i];
      assert LabelsOf(t)[j] == vc[i].category;
    }
  }

  lemma {:induction false} SharesSum(counts: seq<LabelCount>, rows: nat)
    requires rows > 0
    ensures forall i :: 0 <= i < |counts| ==> Shares(counts, rows)[i].denominator > 0
    ensures SumValues(Shares(counts, rows)) == Value(Percent(Total(counts), rows))
  {
    SharesAt(counts, rows);
    if counts != [] {
      SharesSum(counts[1..], rows);
      PercentAdd(counts[0].count, Total(counts[1..]), rows);
    }
  }

  /** With at least one row the categorical percentages add up to 100. */
  lemma CategoricalPercentagesSum(name: string, cells: seq<Cell>)
    requires |cells| > 0
    ensures var ps := AnalyzeCategorical(name, cells).percentages;
      && (forall i :: 0 <= i < |ps| ==> ps[i].denominator > 0)
      && SumValues(ps) == 100.0
  {
    var vc := ValueCounts(cells);
    assert Total(vc) == |cells| by { ValueCountsCorrect(cells); }
    SharesSum(vc, |cells|);
    PercentBounds(|cells|, |cells|);
  }

  lemma {:induction false} SharesAt(counts: seq<LabelCount>, rows: nat)
    ensures forall i :: 0 <= i < |counts| ==> Shares(counts, rows)[i] == Percent(counts[i].count, rows)
  {
    if counts != [] {
      SharesAt(counts[1..], rows);
    }
  }

  /** A missing cell is counted as "No Answer". */
  lemma MissingIsNoAnswer()
    ensures Label(Missing) == NoAnswer
  {
    StripPadded("", NoAnswer, "");
    assert "" + NoAnswer + "" == NoAnswer;
  }

  /**
   * Labels are trimmed but keep their case: a word without surrounding
   * whitespace is its own label whatever padding it carries.
   */
  lemma LabelsKeepCase(p: string, w: string, q: string)
    requires AllSpace(p) && AllSpace(q)
    requires w == [] || (!IsSpace(w[0]) && !IsSpace(w[|w| - 1]))
    ensures Label(Str(p + w + q)) == w
  {
    StripPadded(p, w, q);
  }

  /** "Red" is counted under "Red"... */
  lemma RedIsCountedAsRed()
    ensures Label(Str("Red")) == "Red"
  {
    LabelsKeepCase("", "Red", "");
    assert "" + "Red" + "" == "Red";
  }

  /** ...and " red " under the different label "red". */
  lemma PaddedRedIsCountedAsRed()
    ensures Label(Str(" red ")) == "red"
  {
    assert AllSpace(" ");
    LabelsKeepCase(" ", "red", " ");
    assert " " + "red" + " " == " red ";
  }
}
