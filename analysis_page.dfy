/** The state of the analysis page component (src/pages/AnalysisPage.js):
    its `useState` fields, the handlers that rewrite them, the effect that
    builds the rows, and the two derived views that read them. */
module AnalysisView {
  import opened Wrappers
  import JsText
  import Seqs
  import opened Agents
  import opened Statistics
  import opened Filtering
  import opened Sorting
  import opened Paging

  /** The rows of `filtered` in the order `perm` lists their positions. */
  function Arrange(filtered: seq<Row>, perm: seq<nat>): (r: seq<Row>)
    requires forall k :: 0 <= k < |perm| ==> perm[k] < |filtered|
    ensures |r| == |perm| && forall k :: 0 <= k < |perm| ==> r[k] == filtered[perm[k]]
  {
    seq(|perm|, k requires 0 <= k < |perm| => filtered[perm[k]])
  }

  /** The row as the effect built it, ignoring a cached median. */
  predicate BuiltFrom(row: Row, agent: RawAgent) {
    && row.(medianaProductiva := None) == Normalize(agent)
    && (row.medianaProductiva.Some? ==> row.medianaProductiva == MedianOf(row))
  }

  /** Caching the median of a row onto it keeps it a row built from the same agent. */
  lemma CacheKeepsBuilt(row: Row, agent: RawAgent)
    requires BuiltFrom(row, agent) && MedianOf(row).Some?
    ensures BuiltFrom(row.(medianaProductiva := MedianOf(row)), agent)
  {
    ReadsOnlyMonths(row, row.(medianaProductiva := MedianOf(row)));
  }

  /** Every row is the one the effect built from the agent at the same position. */
  predicate AllBuilt(rows: seq<Row>, agentData: seq<RawAgent>) {
    |rows| == |agentData| && forall k :: 0 <= k < |rows| ==> BuiltFrom(rows[k], agentData[k])
  }

  /** The rows the effect builds are built from their agents. */
  lemma NormalizeAllBuilt(agentData: seq<RawAgent>)
    ensures AllBuilt(NormalizeAll(agentData), agentData)
  {
    var rows := NormalizeAll(agentData);
    forall k | 0 <= k < |rows|
      ensures BuiltFrom(rows[k], agentData[k])
    {
      assert rows[k] == Normalize(agentData[k]);
    }
  }

  /** The selected row after `chartData` has run: its median written onto
      it when there is one, otherwise unchanged. */
  function CacheMedian(row: Row): (r: Row)
    ensures r.(medianaProductiva := None) == row.(medianaProductiva := None)
    ensures MedianOf(row).Some? ==> r.medianaProductiva == MedianOf(row)
    ensures MedianOf(row).None? ==> r == row
  {
    var median := MedianOf(row);
    if median.Some? then row.(medianaProductiva := median) else row
  }

  /** Caching the median of one row keeps every row built from its agent. */
  lemma CacheKeepsAllBuilt(rows: seq<Row>, agentData: seq<RawAgent>, i: nat)
    requires AllBuilt(rows, agentData) && i < |rows|
    ensures AllBuilt(rows[i := CacheMedian(rows[i])], agentData)
  {
    if MedianOf(rows[i]).Some? {
      CacheKeepsBuilt(rows[i], agentData[i]);
    }
  }

  class AnalysisPage {
    /** The agents in the shared store. */
    const agentData: seq<RawAgent>
    var rows: seq<Row>
    var loading: bool
    /** The selected agent, by its position in `rows` (the row object itself in the page). */
    var selected: Option<nat>
    var openModal: bool
    var searchQuery: string
    var page: nat
    var filters: Filters
    var sistematicaC: bool
    var order: Order
    var orderBy: Option<Column>

    ghost predicate Valid()
      reads this
    {
      && page >= 1
      && (loading ==> rows == [] && selected.None?)
      && (!loading ==> AllBuilt(rows, agentData))
      && (selected.Some? ==> selected.value < |rows|)
      && (orderBy.None? ==> order == Asc)
    }

    /** The first render: the spinner shows, nothing is chosen. */
    constructor (agentData: seq<RawAgent>)
      ensures Valid()
      ensures this.agentData == agentData && loading && rows == []
      ensures selected.None? && !openModal && searchQuery == "" && page == 1
      ensures filters == NoFilters && !sistematicaC && order == Asc && orderBy.None?
    {
      this.agentData := agentData;
      rows := [];
      loading := true;
      selected := None;
      openModal := false;
      searchQuery := "";
      page := 1;
      filters := NoFilters;
      sistematicaC := false;
      order := Asc;
      orderBy := None;
    }

    /** The effect on `agentData`: one normalised row per stored agent, then the spinner goes. */
    method LoadRows()
      requires Valid() && loading
      modifies this
      ensures Valid()
      ensures rows == NormalizeAll(agentData) && !loading
      ensures selected == old(selected) && openModal == old(openModal) && searchQuery == old(searchQuery)
      ensures page == old(page) && filters == old(filters) && sistematicaC == old(sistematicaC)
      ensures order == old(order) && orderBy == old(orderBy)
    {
      NormalizeAllBuilt(agentData);
      rows := NormalizeAll(agentData);
      loading := false;
    }

    /** The search field: the text is stored lower-cased and the first page shown. */
    method SetSearchQuery(text: string)
      requires Valid()
      modifies this
      ensures Valid()
      ensures searchQuery == JsText.ToLower(text) && page == 1
      ensures rows == old(rows) && loading == old(loading) && selected == old(selected) && openModal == old(openModal)
      ensures filters == old(filters) && sistematicaC == old(sistematicaC) && order == old(order) && orderBy == old(orderBy)
    {
      searchQuery := JsText.ToLower(text);
      page := 1;
    }

    /** The type selector: the other filter stays, the first page is shown. */
    method SetTipoFilter(value: string)
      requires Valid()
      modifies this
      ensures Valid()
      ensures filters == Filters(value, old(filters).inspector) && page == 1
      ensures rows == old(rows) && loading == old(loading) && selected == old(selected) && openModal == old(openModal)
      ensures searchQuery == old(searchQuery) && sistematicaC == old(sistematicaC) && order == old(order) && orderBy == old(orderBy)
    {
      filters := filters.(tipo := value);
      page := 1;
    }

    /** The inspector selector: the other filter stays, the first page is shown. */
    method SetInspectorFilter(value: string)
      requires Valid()
      modifies this
      ensures Valid()
      ensures filters == Filters(old(filters).tipo, value) && page == 1
      ensures rows == old(rows) && loading == old(loading) && selected == old(selected) && openModal == old(openModal)
      ensures searchQuery == old(searchQuery) && sistematicaC == old(sistematicaC) && order == old(order) && orderBy == old(orderBy)
    {
      filters := filters.(inspector := value);
      page := 1;
    }

    /** The "show all" switch: both selectors are cleared and the first page is shown. */
    method SetShowAll(checked: bool)
      requires Valid()
      modifies this
      ensures Valid()
      ensures sistematicaC == checked && filters == NoFilters && page == 1
      ensures rows == old(rows) && loading == old(loading) && selected == old(selected) && openModal == old(openModal)
      ensures searchQuery == old(searchQuery) && order == old(order) && orderBy == old(orderBy)
    {
      sistematicaC := checked;
      filters := NoFilters;
      page := 1;
    }

    /** The pager: it only ever reports pages from 1 on. */
    method SetPage(value: nat)
      requires Valid() && value >= 1
      modifies this
      ensures Valid()
      ensures page == value
      ensures rows == old(rows) && loading == old(loading) && selected == old(selected) && openModal == old(openModal)
      ensures searchQuery == old(searchQuery) && filters == old(filters) && sistematicaC == old(sistematicaC)
      ensures order == old(order) && orderBy == old(orderBy)
    {
      page := value;
    }

    /** A header click. */
    method HandleRequestSort(property: Column)
      requires Valid()
      modifies this
      ensures Valid()
      ensures (order, orderBy) == RequestSort(old(order), old(orderBy), property)
      ensures rows == old(rows) && loading == old(loading) && selected == old(selected) && openModal == old(openModal)
      ensures searchQuery == old(searchQuery) && page == old(page) && filters == old(filters) && sistematicaC == old(sistematicaC)
    {
      var r := RequestSort(order, orderBy, property);
      order := r.0;
      orderBy := r.1;
    }

    /** A row click: the row becomes the selected agent and the detail view opens. */
    method SelectAgent(i: nat)
      requires Valid() && i < |rows|
      modifies this
      ensures Valid()
      ensures selected == Some(i) && openModal
      ensures rows == old(rows) && loading == old(loading) && searchQuery == old(searchQuery) && page == old(page)
      ensures filters == old(filters) && sistematicaC == old(sistematicaC) && order == old(order) && orderBy == old(orderBy)
    {
      selected := Some(i);
      openModal := true;
    }

    /** Closing the detail view forgets the selected agent. */
    method CloseModal()
      requires Valid()
      modifies this
      ensures Valid()
      ensures selected.None? && !openModal
      ensures rows == old(rows) && loading == old(loading) && searchQuery == old(searchQuery) && page == old(page)
      ensures filters == old(filters) && sistematicaC == old(sistematicaC) && order == old(order) && orderBy == old(orderBy)
    {
      selected := None;
      openModal := false;
    }

    /** `chartData`: the bar series of the selected agent, empty when none is
        selected; when a median exists it is written onto the selected row. */
    method ChartData() returns (points: seq<ChartPoint>)
      requires Valid()
      modifies this
      ensures Valid()
      ensures old(selected).None? ==> points == [] && rows == old(rows)
      ensures old(selected).Some? ==>
        var i := old(selected).value;
        points == ChartSeries(old(rows)[i]) && rows == old(rows)[i := CacheMedian(old(rows)[i])]
      ensures loading == old(loading) && selected == old(selected) && openModal == old(openModal)
      ensures searchQuery == old(searchQuery) && page == old(page) && filters == old(filters)
      ensures sistematicaC == old(sistematicaC) && order == old(order) && orderBy == old(orderBy)
    {
      if selected.None? {
        return [];
      }
      var i := selected.value;
      points := ChartSeries(rows[i]);
      CacheKeepsAllBuilt(rows, agentData, i);
      rows := rows[i := CacheMedian(rows[i])];
    }

    /** The table body: the filtered rows, sorted by the chosen column (kept
        in table order while no column is chosen), cut to the current page. */
    method VisibleRows() returns (shown: seq<Row>, perm: seq<nat>)
      requires Valid()
      ensures var filtered := FilteredRows(rows, searchQuery, sistematicaC, filters);
        && IsPermutation(perm, |filtered|)
        && (orderBy.Some? ==> StableOrder(filtered, perm, orderBy.value, order))
        && (orderBy.None? ==> perm == Range(|filtered|))
        && (forall k :: 0 <= k < |perm| ==> perm[k] < |filtered|)
        && shown == PageRows(Arrange(filtered, perm), page)
    {
      var filtered := FilteredRows(rows, searchQuery, sistematicaC, filters);
      var sorted := filtered;
      if orderBy.Some? {
        sorted, perm := StableSort(filtered, orderBy.value, order);
      } else {
        perm := Range(|filtered|);
      }
      assert sorted == Arrange(filtered, perm);
      shown := PageRows(sorted, page);
    }

    /** The number of pages the pager offers. */
    function PagesOffered(): (n: nat)
      reads this
      ensures n * RowsPerPage >= |FilteredRows(rows, searchQuery, sistematicaC, filters)|
      ensures n == 0 || (n - 1) * RowsPerPage < |FilteredRows(rows, searchQuery, sistematicaC, filters)|
    {
      PageCount(|FilteredRows(rows, searchQuery, sistematicaC, filters)|)
    }
  }
}
