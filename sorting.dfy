/** The table's column sort in src/pages/AnalysisPage.js: `descendingComparator`,
    `getComparator` and `stableSort`, which sorts the rows paired with their
    original positions so that ties keep the table order. */
module Sorting {
  import opened Wrappers
  import opened JsText
  import Seqs
  import opened Agents
  import JsNumber

  /** The sortable columns (the `headCells` ids). */
  datatype Column = Cod | AgentName | Tipo | Inspector | MediaProductiva

  datatype Order = Asc | Desc

  /** `row[orderBy]`: every sortable field is a string, so keys compare as text. */
  function SortKey(row: Row, col: Column): string {
    match col
    case Cod => row.cod
    case AgentName => row.agentName
    case Tipo => row.tipo
    case Inspector => row.inspector
    case MediaProductiva => row.mediaProductiva
  }

  /** `descendingComparator` on two defined keys: negative when `a` comes
      first in descending order, positive when `b` does. */
  function DescendingComparator(a: string, b: string): (c: int)
    ensures c == -1 <==> Less(b, a)
    ensures c == 1 <==> Less(a, b)
    ensures c == 0 <==> a == b
  {
    LessAsymmetric(a, b);
    LessTrichotomous(a, b);
    LessIrreflexive(a);
    if Less(b, a) then -1 else if Less(a, b) then 1 else 0
  }

  /** The key order a direction asks for. */
  predicate KeyBefore(a: string, b: string, ord: Order) {
    if ord == Asc then Less(a, b) else Less(b, a)
  }

  /** `getComparator(order, orderBy)` applied to two rows. */
  function Compare(ord: Order, col: Column, a: Row, b: Row): (c: int)
    ensures c < 0 <==> KeyBefore(SortKey(a, col), SortKey(b, col), ord)
    ensures c == 0 <==> SortKey(a, col) == SortKey(b, col)
  {
    var d := DescendingComparator(SortKey(a, col), SortKey(b, col));
    if ord == Desc then d else -d
  }

  /** The comparator `stableSort` hands to the array sort, on the original
      positions `i` and `j`: the row comparison, then the positions. */
  predicate Precedes(rows: seq<Row>, i: nat, j: nat, col: Column, ord: Order) {
    && i < |rows| && j < |rows|
    && var c := Compare(ord, col, rows[i], rows[j]);
       c < 0 || (c == 0 && i < j)
  }

  lemma PrecedesIrreflexive(rows: seq<Row>, i: nat, col: Column, ord: Order)
    ensures !Precedes(rows, i, i, col, ord)
  {
  }

  lemma PrecedesAsymmetric(rows: seq<Row>, i: nat, j: nat, col: Column, ord: Order)
    requires Precedes(rows, i, j, col, ord)
    ensures !Precedes(rows, j, i, col, ord)
  {
    LessAsymmetric(SortKey(rows[i], col), SortKey(rows[j], col));
  }

  lemma PrecedesTransitive(rows: seq<Row>, i: nat, j: nat, k: nat, col: Column, ord: Order)
    requires Precedes(rows, i, j, col, ord) && Precedes(rows, j, k, col, ord)
    ensures Precedes(rows, i, k, col, ord)
  {
    var ki, kj, kk := SortKey(rows[i], col), SortKey(rows[j], col), SortKey(rows[k], col);
    if ord == Asc {
      if Less(ki, kj) && Less(kj, kk) {
        LessTransitive(ki, kj, kk);
      }
    } else {
      if Less(kj, ki) && Less(kk, kj) {
        LessTransitive(kk, kj, ki);
      }
    }
  }

  lemma PrecedesTotal(rows: seq<Row>, i: nat, j: nat, col: Column, ord: Order)
    requires i < |rows| && j < |rows| && i != j
    ensures Precedes(rows, i, j, col, ord) || Precedes(rows, j, i, col, ord)
  {
    LessTrichotomous(SortKey(rows[i], col), SortKey(rows[j], col));
  }

  /** Rows with equal keys keep their table order in both directions; rows
      with different keys swap places when the direction is flipped. */
  lemma FlipDirection(rows: seq<Row>, i: nat, j: nat, col: Column)
    requires i < |rows| && j < |rows|
    ensures SortKey(rows[i], col) == SortKey(rows[j], col) ==>
      (Precedes(rows, i, j, col, Asc) <==> Precedes(rows, i, j, col, Desc))
    ensures SortKey(rows[i], col) != SortKey(rows[j], col) ==>
      (Precedes(rows, i, j, col, Asc) <==> Precedes(rows, j, i, col, Desc))
  {
  }

  /** `handleRequestSort(property)`: the clicked column becomes the sort
      column; the direction turns descending only when that column was
      already sorted ascending, and is ascending otherwise. */
  function RequestSort(order: Order, orderBy: Option<Column>, property: Column): (r: (Order, Option<Column>))
    ensures r.1 == Some(property)
    ensures r.0 == Desc <==> orderBy == Some(property) && order == Asc
  {
    var isAsc := orderBy == Some(property) && order == Asc;
    (if isAsc then Desc else Asc, Some(property))
  }

  /** Clicking the same header again always flips the direction, and a third
      click restores the state of the first. */
  lemma RepeatedClicksAlternate(order: Order, orderBy: Option<Column>, property: Column)
    ensures var (o1, b1) := RequestSort(order, orderBy, property);
      var (o2, b2) := RequestSort(o1, b1, property);
      o2 != o1 && RequestSort(o2, b2, property) == (o1, b1)
  {
  }

  /** The positions `0 .. n - 1`, the initial `stabilizedThis` indices. */
  function Range(n: nat): (r: seq<nat>)
    ensures |r| == n && forall k :: 0 <= k < n ==> r[k] == k
  {
    seq(n, k requires 0 <= k < n => k)
  }

  /** `perm` rearranges the positions of an `n`-row table. */
  predicate IsPermutation(perm: seq<nat>, n: nat) {
    multiset(perm) == multiset(Range(n))
  }

  /** Every pair of positions in `perm` is in comparator order. */
  predicate StableOrder(rows: seq<Row>, perm: seq<nat>, col: Column, ord: Order) {
    forall x, y :: 0 <= x < y < |perm| ==> Precedes(rows, perm[x], perm[y], col, ord)
  }

  lemma {:induction false} RangeOnce(n: nat, v: nat)
    ensures multiset(Range(n))[v] == if v < n then 1 else 0
  {
    if n > 0 {
      assert Range(n) == Range(n - 1) + [n - 1];
      RangeOnce(n - 1, v);
    }
  }

  /** A permutation of the positions has each of them once and no other value. */
  lemma PermutationFacts(perm: seq<nat>, n: nat)
    requires IsPermutation(perm, n)
    ensures |perm| == n
    ensures forall k :: 0 <= k < |perm| ==> perm[k] < n
    ensures forall x, y :: 0 <= x < y < |perm| ==> perm[x] != perm[y]
  {
    assert |perm| == |multiset(perm)| == |multiset(Range(n))| == n;
    forall k | 0 <= k < |perm| ensures perm[k] < n {
      assert perm[k] in multiset(perm);
      RangeOnce(n, perm[k]);
    }
    forall x, y | 0 <= x < y < |perm| ensures perm[x] != perm[y] {
      if perm[x] == perm[y] {
        var v := perm[x];
        assert perm == perm[..y] + perm[y..];
        assert v in multiset(perm[..y]) && v in multiset(perm[y..]);
        assert multiset(perm)[v] >= 2;
        RangeOnce(n, v);
        assert false;
      }
    }
  }

  /** Two arrangements of the same positions, both in comparator order, are
      equal: the sorted table does not depend on how the sort proceeds. */
  lemma {:induction false} StableOrderUnique(rows: seq<Row>, p: seq<nat>, q: seq<nat>, col: Column, ord: Order)
    requires multiset(p) == multiset(q)
    requires StableOrder(rows, p, col, ord) && StableOrder(rows, q, col, ord)
    ensures p == q
  {
    assert |p| == |multiset(p)| == |multiset(q)| == |q|;
    if |p| > 0 {
      assert p[0] in multiset(q) && q[0] in multiset(p);
      var m :| 0 <= m < |q| && q[m] == p[0];
      var m' :| 0 <= m' < |p| && p[m'] == q[0];
      if m > 0 && m' > 0 {
        PrecedesAsymmetric(rows, p[0], p[m'], col, ord);
        assert false;
      }
      assert p[0] == q[0];
      Seqs.MultisetTail(p);
      Seqs.MultisetTail(q);
      StableOrderUnique(rows, p[1..], q[1..], col, ord);
    }
  }

  /** What the order means for the rows: ties keep the table order, other
      rows follow their keys in the chosen direction. */
  lemma StableOrderMeaning(rows: seq<Row>, perm: seq<nat>, col: Column, ord: Order, x: nat, y: nat)
    requires StableOrder(rows, perm, col, ord) && x < y < |perm|
    ensures perm[x] < |rows| && perm[y] < |rows|
    ensures SortKey(rows[perm[x]], col) == SortKey(rows[perm[y]], col) ==> perm[x] < perm[y]
    ensures SortKey(rows[perm[x]], col) != SortKey(rows[perm[y]], col) ==>
      KeyBefore(SortKey(rows[perm[x]], col), SortKey(rows[perm[y]], col), ord)
  {
  }

  /** The texts "10" and "9" in ascending order: "10" first. */
  lemma TenBeforeNine(rows: seq<Row>)
    requires |rows| == 2 && rows[0].mediaProductiva == "9" && rows[1].mediaProductiva == "10"
    ensures Precedes(rows, 1, 0, MediaProductiva, Asc)
  {
    assert Less("10", "9");
  }

  /** A mean of 9 is shown as "9" and a mean of 10 as "10". */
  lemma NineAndTenTexts()
    ensures MediaText(Rounded(900)) == "9" && MediaText(Rounded(1000)) == "10"
  {
    JsNumber.WholeHundredths(9);
    JsNumber.WholeHundredths(10);
    assert JsNumber.NatToString(10) == JsNumber.NatToString(1) + ['0'];
  }

  /** Mean productivity is sorted as text: a mean of 10 comes before a mean
      of 9 ascending, because "10" is less than "9" as a string. */
  lemma MediaSortsAsText(rows: seq<Row>)
    requires |rows| == 2
    requires rows[0].mediaProductiva == MediaText(Rounded(900))
    requires rows[1].mediaProductiva == MediaText(Rounded(1000))
    ensures Precedes(rows, 1, 0, MediaProductiva, Asc)
  {
    NineAndTenTexts();
    TenBeforeNine(rows);
  }

  /** What holds while position `i` moves down to `j`: the other positions
      up to `i` are in order and the moving one precedes those above it. */
  predicate Inserting(rows: seq<Row>, s: seq<nat>, i: nat, j: nat, col: Column, ord: Order) {
    && j <= i < |s|
    && (forall x, y :: 0 <= x < y <= i && x != j && y != j ==> Precedes(rows, s[x], s[y], col, ord))
    && (forall y :: j < y <= i ==> Precedes(rows, s[j], s[y], col, ord))
  }

  /** One swap of the insertion keeps the permutation and the ordering facts. */
  lemma SwapStep(rows: seq<Row>, s: seq<nat>, i: nat, j: nat, col: Column, ord: Order)
    requires Inserting(rows, s, i, j, col, ord) && j > 0
    requires Precedes(rows, s[j], s[j - 1], col, ord)
    ensures var t := s[j - 1 := s[j]][j := s[j - 1]];
      multiset(t) == multiset(s) && Inserting(rows, t, i, j - 1, col, ord)
  {
    var t := s[j - 1 := s[j]][j := s[j - 1]];
    assert t == s[..j - 1] + [s[j], s[j - 1]] + s[j + 1..];
    assert s == s[..j - 1] + [s[j - 1], s[j]] + s[j + 1..];
    forall x, y | 0 <= x < y <= i && x != j - 1 && y != j - 1
      ensures Precedes(rows, t[x], t[y], col, ord)
    {
      if y == j {
        assert t[y] == s[j - 1] && t[x] == s[x];
      } else if x == j {
        assert t[x] == s[j - 1] && t[y] == s[y];
      } else {
        assert t[x] == s[x] && t[y] == s[y];
      }
    }
    forall y | j - 1 < y <= i
      ensures Precedes(rows, t[j - 1], t[y], col, ord)
    {
      assert t[j - 1] == s[j];
      if y == j {
        assert t[y] == s[j - 1];
      } else {
        assert t[y] == s[y];
      }
    }
  }

  /** Where the insertion of position `i` stops, the first `i + 1`
      positions are in comparator order. */
  lemma InsertionComplete(rows: seq<Row>, s: seq<nat>, n: nat, i: nat, j: nat, col: Column, ord: Order)
    requires IsPermutation(s, n) && Inserting(rows, s, i, j, col, ord)
    requires j == 0 || !Precedes(rows, s[j], s[j - 1], col, ord)
    requires forall k :: 0 <= k < |s| ==> s[k] < |rows|
    ensures forall x, y :: 0 <= x < y <= i ==> Precedes(rows, s[x], s[y], col, ord)
  {
    if j > 0 {
      PermutationFacts(s, n);
      PrecedesTotal(rows, s[j], s[j - 1], col, ord);
      forall x | 0 <= x < j - 1
        ensures Precedes(rows, s[x], s[j], col, ord)
      {
        PrecedesTransitive(rows, s[x], s[j - 1], s[j], col, ord);
      }
    }
  }

  /** `stableSort(rows, getComparator(order, orderBy))`: an insertion sort of
      the original positions in place, then the rows at those positions. */
  method StableSort(rows: seq<Row>, col: Column, ord: Order) returns (sorted: seq<Row>, perm: seq<nat>)
    ensures IsPermutation(perm, |rows|)
    ensures StableOrder(rows, perm, col, ord)
    ensures |sorted| == |perm| && forall k :: 0 <= k < |perm| ==> perm[k] < |rows| && sorted[k] == rows[perm[k]]
  {
    var n := |rows|;
    var a := new nat[n](k => k);
    assert a[..] == Range(n);
    for i := 0 to n
      invariant IsPermutation(a[..], n)
      invariant forall x, y :: 0 <= x < y < i ==> Precedes(rows, a[x], a[y], col, ord)
    {
      var j := i;
      while j > 0 && Precedes(rows, a[j], a[j - 1], col, ord)
        invariant IsPermutation(a[..], n)
        invariant Inserting(rows, a[..], i, j, col, ord)
      {
        SwapStep(rows, a[..], i, j, col, ord);
        a[j - 1], a[j] := a[j], a[j - 1];
        j := j - 1;
      }
      PermutationFacts(a[..], n);
      InsertionComplete(rows, a[..], n, i, j, col, ord);
    }
    var order := a[..];
    PermutationFacts(order, n);
    perm := order;
    sorted := seq(n, k requires 0 <= k < n => rows[order[k]]);
  }
}
