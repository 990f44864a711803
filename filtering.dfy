/** The table's row filter (`filteredRows`) and the option lists of the two
    filter selectors (`getFilterOptions`) in src/pages/AnalysisPage.js. */
module Filtering {
  import opened JsText
  import Seqs
  import opened Agents

  /** The agent types hidden unless "show all" is switched on. */
  const ExcludedTipos: seq<string> := ["AGENTE DE SEGUROS", "DERECHOS ECONOMICOS", "ADMINISTRADOR FINCAS"]

  /** The two selector values; the empty string stands for "Todos". */
  datatype Filters = Filters(tipo: string, inspector: string)

  const NoFilters := Filters("", "")

  /** The search text, already lower-cased, occurs in the lower-cased name or code. */
  predicate QueryMatch(row: Row, query: string) {
    Includes(ToLower(row.agentName), query) || Includes(ToLower(row.cod), query)
  }

  /** The search ignores case: text typed in any capitalisation of
      something that occurs in the name or the code finds the row once the
      handler has lower-cased it. */
  lemma SearchIgnoresCase(row: Row, typed: string, found: string)
    requires Includes(row.agentName, found) || Includes(row.cod, found)
    requires ToLower(typed) == ToLower(found)
    ensures QueryMatch(row, ToLower(typed))
  {
    if Includes(row.agentName, found) {
      IncludesIgnoresCase(row.agentName, found);
    } else {
      IncludesIgnoresCase(row.cod, found);
    }
  }

  /** Typing "AN" finds the agent "Ana". */
  lemma SearchFindsAna(row: Row)
    requires row.agentName == "Ana"
    ensures QueryMatch(row, ToLower("AN"))
  {
    assert StartsWith(row.agentName, "An");
    assert ToLower("AN") == "an" == ToLower("An");
    SearchIgnoresCase(row, "AN", "An");
  }

  /** The type, trimmed and upper-cased, is not an excluded one, unless all are shown. */
  predicate SistematicaMatch(row: Row, showAll: bool) {
    showAll || ToUpper(Trim(row.tipo)) !in ExcludedTipos
  }

  predicate TipoMatch(row: Row, filters: Filters) {
    filters.tipo == "" || row.tipo == filters.tipo
  }

  predicate InspectorMatch(row: Row, filters: Filters) {
    filters.inspector == "" || row.inspector == filters.inspector
  }

  /** The row passes the search and the type exclusion. */
  predicate IsCandidate(row: Row, query: string, showAll: bool) {
    QueryMatch(row, query) && SistematicaMatch(row, showAll)
  }

  predicate IsVisible(row: Row, query: string, showAll: bool, filters: Filters) {
    IsCandidate(row, query, showAll) && TipoMatch(row, filters) && InspectorMatch(row, filters)
  }

  /** `filteredRows`: the rows passing all four tests, in table order. */
  function FilteredRows(rows: seq<Row>, query: string, showAll: bool, filters: Filters): (r: seq<Row>)
    ensures Seqs.IsSubsequence(r, rows)
    ensures forall k :: 0 <= k < |r| ==> IsVisible(r[k], query, showAll, filters)
    ensures forall k :: 0 <= k < |rows| && IsVisible(rows[k], query, showAll, filters) ==> rows[k] in r
    ensures |r| == Seqs.Count(rows, row => IsVisible(row, query, showAll, filters))
  {
    Seqs.FilterCount(rows, row => IsVisible(row, query, showAll, filters));
    Seqs.Filter(rows, row => IsVisible(row, query, showAll, filters))
  }

  /** An empty search, "show all" and no selector values keep every row. */
  lemma NoConstraintKeepsAll(rows: seq<Row>)
    ensures FilteredRows(rows, "", true, NoFilters) == rows
  {
    forall row: Row ensures IsVisible(row, "", true, NoFilters) {
      EmptyIncluded(ToLower(row.agentName));
    }
    FilterAll(rows, row => IsVisible(row, "", true, NoFilters));
  }

  lemma {:induction false} FilterAll<T>(s: seq<T>, p: T -> bool)
    requires forall x :: p(x)
    ensures Seqs.Filter(s, p) == s
  {
    if |s| > 0 {
      FilterAll(s[1..], p);
    }
  }

  lemma UpperExcluded()
    ensures ToUpper("Agente de Seguros") == ExcludedTipos[0]
  {
  }

  /** The type exclusion ignores letter case and surrounding blanks. */
  lemma ExclusionIgnoresCaseAndBlanks(row: Row)
    requires row.tipo == " Agente de Seguros "
    ensures !SistematicaMatch(row, false) && SistematicaMatch(row, true)
  {
    assert row.tipo == " " + "Agente de Seguros" + " ";
    TrimRemovesPadding(" ", "Agente de Seguros", " ");
    assert Trim(row.tipo) == "Agente de Seguros";
    UpperExcluded();
  }

  /** The selectors a list of options is drawn for. */
  datatype OptionKey = TipoKey | InspectorKey

  function Field(row: Row, key: OptionKey): string {
    match key
    case TipoKey => row.tipo
    case InspectorKey => row.inspector
  }

  /** The rows passing the search and the type exclusion, in table order. */
  function Candidates(rows: seq<Row>, query: string, showAll: bool): (r: seq<Row>)
    ensures forall k :: 0 <= k < |r| ==> r[k] in rows && IsCandidate(r[k], query, showAll)
    ensures forall i :: 0 <= i < |rows| && IsCandidate(rows[i], query, showAll) ==> rows[i] in r
    ensures Seqs.IsSubsequence(r, rows)
    ensures |r| == Seqs.Count(rows, row => IsCandidate(row, query, showAll))
  {
    Seqs.FilterCount(rows, row => IsCandidate(row, query, showAll));
    Seqs.Filter(rows, row => IsCandidate(row, query, showAll))
  }

  /** `getFilterOptions(key)`: the distinct non-empty values of the field
      among the candidate rows. The selector values themselves play no part. */
  function FilterOptions(rows: seq<Row>, query: string, showAll: bool, key: OptionKey): (options: seq<string>)
    ensures Seqs.Distinct(options)
    ensures forall k :: 0 <= k < |options| ==> options[k] != ""
    ensures var candidates := Candidates(rows, query, showAll);
      forall k :: 0 <= k < |options| ==>
        exists j :: 0 <= j < |candidates| && Field(candidates[j], key) == options[k]
    ensures var candidates := Candidates(rows, query, showAll);
      forall j :: 0 <= j < |candidates| && Field(candidates[j], key) != "" ==> Field(candidates[j], key) in options
  {
    var values := Seqs.Map(Candidates(rows, query, showAll), row => Field(row, key));
    Seqs.Dedup(Seqs.Filter(values, v => v != ""))
  }

  /** The options keep the order in which the values first appear among the candidate rows. */
  lemma OptionsKeepFirstAppearance(rows: seq<Row>, query: string, showAll: bool, key: OptionKey)
    ensures var values := Seqs.Map(Candidates(rows, query, showAll), row => Field(row, key));
      var present := Seqs.Filter(values, v => v != "");
      var options := FilterOptions(rows, query, showAll, key);
      forall i, j :: 0 <= i < j < |options| ==> Seqs.IndexOf(present, options[i]) < Seqs.IndexOf(present, options[j])
  {
  }

  /** Every visible row's type and inspector can be chosen in the selectors,
      so a selector never offers fewer values than the table shows. */
  lemma VisibleRowsOffered(rows: seq<Row>, query: string, showAll: bool, filters: Filters, k: nat)
    requires k < |rows| && IsVisible(rows[k], query, showAll, filters)
    ensures rows[k].tipo != "" ==> rows[k].tipo in FilterOptions(rows, query, showAll, TipoKey)
    ensures rows[k].inspector != "" ==> rows[k].inspector in FilterOptions(rows, query, showAll, InspectorKey)
  {
  }
}
