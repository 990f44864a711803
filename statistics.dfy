/** The detail view of one agent (`chartData` in src/pages/AnalysisPage.js):
    the months that enter the median, the median itself and the monthly bar
    series with its colour rule. */
module Statistics {
  import opened Wrappers
  import JsNumber
  import Seqs
  import opened Agents

  /** `tipoData[key]`: the flag text of a month, `None` when the month has no flag. */
  function Lookup(months: Months, key: string): (v: Option<string>)
    ensures v.Some? <==> exists k :: 0 <= k < |months| && months[k].key == key
    ensures v.Some? ==> exists k :: 0 <= k < |months| && months[k] == Entry(key, v.value)
  {
    if |months| == 0 then None
    else if months[0].key == key then Some(months[0].value)
    else
      var v := Lookup(months[1..], key);
      assert forall k :: 1 <= k < |months| ==> months[k] == months[1..][k - 1];
      v
  }

  /** The flag of month `key` parses to one of the excluded codes. A missing
      or non-numeric flag does not exclude the month. */
  predicate FlagExcludes(tipoData: Months, key: string) {
    var flag := Lookup(tipoData, key);
    flag.Some? && var v := JsNumber.ParseFloat(flag.value); v.Some? && IsExcludedFlag(v.value)
  }

  /** A policy month enters the median and the chart when its flag does not
      exclude it and its policy count parses as a number. */
  predicate IsIncluded(tipoData: Months, e: Entry) {
    !FlagExcludes(tipoData, e.key) && JsNumber.ParseFloat(e.value).Some?
  }

  /** `filteredEntries`: the included policy months, in the object's order. */
  function IncludedEntries(row: Row): (r: Months)
    ensures forall k :: 0 <= k < |r| ==> IsIncluded(row.tipoData, r[k])
    ensures forall k :: 0 <= k < |row.polFisData| && IsIncluded(row.tipoData, row.polFisData[k]) ==> row.polFisData[k] in r
    ensures Seqs.IsSubsequence(r, row.polFisData)
    ensures |r| == Seqs.Count(row.polFisData, e => IsIncluded(row.tipoData, e))
  {
    Seqs.FilterCount(row.polFisData, e => IsIncluded(row.tipoData, e));
    Seqs.Filter(row.polFisData, e => IsIncluded(row.tipoData, e))
  }

  /** The parsed policy counts of months whose counts all parse. */
  function Values(entries: Months): (vs: seq<real>)
    requires forall k :: 0 <= k < |entries| ==> JsNumber.ParseFloat(entries[k].value).Some?
    ensures |vs| == |entries|
  {
    seq(|entries|, k requires 0 <= k < |entries| => JsNumber.ParseFloat(entries[k].value).value)
  }

  /** `values`: the policy counts of the included months. */
  function IncludedValues(row: Row): seq<real> {
    Values(IncludedEntries(row))
  }

  predicate SortedAsc(s: seq<real>) {
    forall i, j :: 0 <= i < j < |s| ==> s[i] <= s[j]
  }

  function Insert(x: real, s: seq<real>): (r: seq<real>)
    requires SortedAsc(s)
    ensures |r| == |s| + 1 && SortedAsc(r) && multiset(r) == multiset(s) + multiset{x}
    ensures r[0] == x || (|s| > 0 && r[0] == s[0])
  {
    if |s| == 0 || x <= s[0] then
      var r := [x] + s;
      assert forall j :: 0 < j < |r| ==> r[j] == s[j - 1];
      r
    else
      var t := Insert(x, s[1..]);
      assert s == [s[0]] + s[1..];
      assert s[0] <= t[0];
      var r := [s[0]] + t;
      assert forall j :: 0 < j < |r| ==> r[j] == t[j - 1];
      r
  }

  /** `[...values].sort((a, b) => a - b)`: the values in ascending order. */
  function SortAsc(s: seq<real>): (r: seq<real>)
    ensures SortedAsc(r) && multiset(r) == multiset(s)
  {
    if |s| == 0 then []
    else
      assert s == [s[0]] + s[1..];
      Insert(s[0], SortAsc(s[1..]))
  }

  lemma FirstIsLeast(s: seq<real>, x: real)
    requires SortedAsc(s) && x in multiset(s)
    ensures s[0] <= x
  {
    var i :| 0 <= i < |s| && s[i] == x;
  }

  lemma TailMultiset(s: seq<real>)
    requires |s| > 0
    ensures multiset(s[1..]) == multiset(s) - multiset{s[0]}
    ensures SortedAsc(s) ==> SortedAsc(s[1..])
  {
    Seqs.MultisetTail(s);
  }

  lemma SameHeadAndTail(a: seq<real>, b: seq<real>)
    requires |a| > 0 && |b| > 0 && a[0] == b[0] && a[1..] == b[1..]
    ensures a == b
  {
    assert a == [a[0]] + a[1..];
    assert b == [b[0]] + b[1..];
  }

  /** Sorting has only one possible outcome: two ascending sequences with the
      same elements are equal. */
  lemma {:induction false} SortedUnique(a: seq<real>, b: seq<real>)
    requires SortedAsc(a) && SortedAsc(b) && multiset(a) == multiset(b)
    ensures a == b
  {
    assert |a| == |multiset(a)| == |multiset(b)| == |b|;
    if |a| > 0 {
      assert a[0] in multiset(b) && b[0] in multiset(a);
      FirstIsLeast(b, a[0]);
      FirstIsLeast(a, b[0]);
      assert a[0] == b[0];
      TailMultiset(a);
      TailMultiset(b);
      SortedUnique(a[1..], b[1..]);
      SameHeadAndTail(a, b);
    }
  }

  /** The median of an ascending sequence: its middle element, or the mean of
      its two middle elements. */
  function Median(s: seq<real>): (m: real)
    requires |s| > 0 && SortedAsc(s)
    ensures forall k :: 0 <= k <= (|s| - 1) / 2 ==> s[k] <= m
    ensures forall k :: |s| / 2 <= k < |s| ==> m <= s[k]
  {
    var mid := |s| / 2;
    if |s| % 2 != 0 then s[mid] else (s[mid - 1] + s[mid]) / 2.0
  }

  /** The median written onto the selected row, or `None` when no month is included. */
  function MedianOf(row: Row): (m: Option<real>)
    ensures m.None? <==> IncludedEntries(row) == []
    ensures m.Some? ==> m.value == Median(SortAsc(IncludedValues(row)))
  {
    var vs := IncludedValues(row);
    if |vs| == 0 then None else Some(Median(SortAsc(vs)))
  }

  /** The median and the chart read only the two month objects of the row. */
  lemma ReadsOnlyMonths(r1: Row, r2: Row)
    requires r1.polFisData == r2.polFisData && r1.tipoData == r2.tipoData
    ensures MedianOf(r1) == MedianOf(r2) && ChartSeries(r1) == ChartSeries(r2)
  {
    assert IncludedEntries(r1) == IncludedEntries(r2);
  }

  /** The median depends on the included policy counts only, not on the
      order in which the month object lists them. */
  lemma MedianIgnoresOrder(r1: Row, r2: Row)
    requires multiset(IncludedValues(r1)) == multiset(IncludedValues(r2))
    ensures MedianOf(r1) == MedianOf(r2)
  {
    var v1, v2 := IncludedValues(r1), IncludedValues(r2);
    assert |v1| == |multiset(v1)| == |multiset(v2)| == |v2|;
    SortedUnique(SortAsc(v1), SortAsc(v2));
  }

  /** Sorting is determined by the elements: an ascending sequence with the
      same elements as `s` is what `SortAsc` returns. */
  lemma SortAscIs(s: seq<real>, sorted: seq<real>)
    requires SortedAsc(sorted) && multiset(s) == multiset(sorted)
    ensures SortAsc(s) == sorted
  {
    SortedUnique(SortAsc(s), sorted);
  }

  /** The documented example with three months: 10, 20 and 30 in any
      order have median 20. */
  lemma MedianOfThree()
    ensures Median(SortAsc([30.0, 10.0, 20.0])) == 20.0
  {
    var s := [30.0, 10.0, 20.0];
    var sorted := [10.0, 20.0, 30.0];
    assert multiset(s) == multiset(sorted) by {
      assert s == [30.0] + [10.0] + [20.0] && sorted == [10.0] + [20.0] + [30.0];
    }
    SortAscIs(s, sorted);
  }

  /** The documented example with two months: 20 and 10 have median 15. */
  lemma MedianOfTwo()
    ensures Median(SortAsc([20.0, 10.0])) == 15.0
  {
    var s := [20.0, 10.0];
    var sorted := [10.0, 20.0];
    assert multiset(s) == multiset(sorted) by {
      assert s == [20.0] + [10.0] && sorted == [10.0] + [20.0];
    }
    SortAscIs(s, sorted);
  }

  /** `Math.max(...values)`. */
  function MaxOf(s: seq<real>): (m: real)
    requires |s| > 0
    ensures m in s && forall k :: 0 <= k < |s| ==> s[k] <= m
  {
    if |s| == 1 then s[0]
    else
      var rest := MaxOf(s[1..]);
      assert forall k :: 1 <= k < |s| ==> s[k] == s[1..][k - 1];
      if s[0] >= rest then s[0] else rest
  }

  /** `mes.split('-')[1]`: the text between the first dash and the next one
      (or the end); `None` (undefined) when the key has no dash. */
  function MonthLabel(key: string): (month: Option<string>)
    ensures month.Some? <==> '-' in key
    ensures month.Some? ==>
      var after := key[Seqs.IndexOf(key, '-') + 1..];
      && '-' !in month.value && |month.value| <= |after| && month.value == after[..|month.value|]
      && (|month.value| == |after| || after[|month.value|] == '-')
  {
    if '-' !in key then None
    else
      var after := key[Seqs.IndexOf(key, '-') + 1..];
      Some(if '-' in after then after[..Seqs.IndexOf(after, '-')] else after)
  }

  const NegativeColor := "#e74c3c"
  const HighestColor := "#2ecc71"
  const BelowMedianColor := "#e67e22"
  const RegularColor := "#8884d8"

  /** The bar colour: negative counts, the highest count, counts below the
      median and the rest. */
  function FillColor(value: real, highest: real, median: real): string {
    if value < 0.0 then NegativeColor
    else if value == highest then HighestColor
    else if value < median then BelowMedianColor
    else RegularColor
  }

  /** One bar of the monthly chart. */
  datatype ChartPoint = ChartPoint(mes: Option<string>, value: real, fillColor: string)

  /** One bar per month, coloured against the highest count and the median. */
  function Bars(entries: Months, vs: seq<real>, highest: real, median: real): (points: seq<ChartPoint>)
    requires |entries| == |vs|
    ensures |points| == |vs|
    ensures forall k :: 0 <= k < |points| ==>
      points[k] == ChartPoint(MonthLabel(entries[k].key), vs[k], FillColor(vs[k], highest, median))
  {
    seq(|entries|, k requires 0 <= k < |entries| =>
      ChartPoint(MonthLabel(entries[k].key), vs[k], FillColor(vs[k], highest, median)))
  }

  /** The bar series of the selected row: one bar per included month, in
      order, coloured against the highest count and the median. */
  function ChartSeries(row: Row): (points: seq<ChartPoint>)
    ensures |points| == |IncludedEntries(row)|
    ensures |points| > 0 ==> points == Bars(IncludedEntries(row), IncludedValues(row),
      MaxOf(IncludedValues(row)), Median(SortAsc(IncludedValues(row))))
  {
    var entries, vs := IncludedEntries(row), IncludedValues(row);
    if |vs| == 0 then [] else Bars(entries, vs, MaxOf(vs), Median(SortAsc(vs)))
  }

  /** The chart is empty exactly when no median is written. */
  lemma ChartEmptyIffNoMedian(row: Row)
    ensures ChartSeries(row) == [] <==> MedianOf(row).None?
  {
  }

  /** When the highest included count is not negative, its bar is the highest-count colour. */
  lemma HighestBarMarked(row: Row)
    requires IncludedValues(row) != []
    requires MaxOf(IncludedValues(row)) >= 0.0
    ensures exists k :: 0 <= k < |ChartSeries(row)| && ChartSeries(row)[k].fillColor == HighestColor
  {
    var entries, vs := IncludedEntries(row), IncludedValues(row);
    var highest := MaxOf(vs);
    var k :| 0 <= k < |vs| && vs[k] == highest;
    var points := Bars(entries, vs, highest, Median(SortAsc(vs)));
    assert points[k].fillColor == HighestColor;
    assert ChartSeries(row) == points;
  }
}
