/** The agent records of the analysis page (src/pages/AnalysisPage.js): the
    raw record read from the shared store, the table row it is normalised
    into, and the mean productivity computed for each agent. */
module Agents {
  import opened Wrappers
  import JsText
  import JsNumber

  /** One own property of a month object: a `YYYY-MM` key and its cell text. */
  datatype Entry = Entry(key: string, value: string)

  /** A month object as `Object.entries` lists it, in insertion order. */
  type Months = seq<Entry>

  /** An agent as the store holds it; `None` is a missing (`undefined`) property. */
  datatype RawAgent = RawAgent(
    cod: Option<string>,
    agentName: Option<string>,
    tipo: Option<string>,
    inspector: Option<string>,
    polFisData: Option<Months>,
    tipoData: Option<Months>)

  /** A table row. `medianaProductiva` is the median cached onto the row
      object when its detail view is first opened. */
  datatype Row = Row(
    cod: string,
    agentName: string,
    tipo: string,
    inspector: string,
    mediaProductiva: string,
    polFisData: Months,
    tipoData: Months,
    medianaProductiva: Option<real>)

  /** The mean productivity before it is turned into text. */
  datatype Media = NotAvailable | Rounded(hundredths: int)

  const NotAvailableText := "N/A"
  const NoName := "Sin nombre"
  const Unknown := "Desconocido"

  /** A string property is truthy when it is present and not empty. */
  predicate IsTruthy(s: Option<string>) {
    s.Some? && s.value != ""
  }

  /** The month status codes that mark a month as not productive. */
  predicate IsExcludedFlag(x: real) {
    x == 0.0 || x == 3.0 || x == 12.0 || x == 17.0
  }

  /** A month counts as active when its flag parses to a number outside the excluded codes. */
  predicate IsActiveFlag(text: string) {
    var v := JsNumber.ParseFloat(text);
    v.Some? && !IsExcludedFlag(v.value)
  }

  /** The number of active months in a flag object. */
  function ActiveMonths(tipoData: Months): (n: nat)
    ensures n <= |tipoData|
  {
    if |tipoData| == 0 then 0
    else ActiveMonths(tipoData[..|tipoData| - 1]) + (if IsActiveFlag(tipoData[|tipoData| - 1].value) then 1 else 0)
  }

  /** The sum of every policy count that parses as a number; other cells add nothing. */
  function TotalPolicies(polFisData: Months): real {
    if |polFisData| == 0 then 0.0
    else
      var v := JsNumber.ParseFloat(polFisData[|polFisData| - 1].value);
      TotalPolicies(polFisData[..|polFisData| - 1]) + (if v.Some? then v.value else 0.0)
  }

  /** Counting active months distributes over concatenation of month objects. */
  lemma {:induction false} ActiveMonthsAppend(a: Months, b: Months)
    ensures ActiveMonths(a + b) == ActiveMonths(a) + ActiveMonths(b)
  {
    if |b| > 0 {
      var front := b[..|b| - 1];
      var step := if IsActiveFlag(b[|b| - 1].value) then 1 else 0;
      assert (a + b)[..|a + b| - 1] == a + front;
      assert (a + b)[|a + b| - 1] == b[|b| - 1];
      assert ActiveMonths(a + b) == ActiveMonths(a + front) + step;
      assert ActiveMonths(b) == ActiveMonths(front) + step;
      ActiveMonthsAppend(a, front);
    } else {
      assert a + b == a;
    }
  }

  /** Summing policies distributes over concatenation of month objects. */
  lemma {:induction false} TotalPoliciesAppend(a: Months, b: Months)
    ensures TotalPolicies(a + b) == TotalPolicies(a) + TotalPolicies(b)
  {
    if |b| > 0 {
      assert (a + b)[..|a + b| - 1] == a + b[..|b| - 1];
      TotalPoliciesAppend(a, b[..|b| - 1]);
    } else {
      assert a + b == a;
    }
  }

  /** A month whose policy cell is not numeric contributes nothing to the total,
      and an active month whose flag is not numeric is not counted. */
  lemma NonNumericIgnored(months: Months, e: Entry)
    requires JsNumber.ParseFloat(e.value).None?
    ensures TotalPolicies(months + [e]) == TotalPolicies(months)
    ensures ActiveMonths(months + [e]) == ActiveMonths(months)
  {
    assert (months + [e])[..|months|] == months;
  }

  /** One month on its own: it is an active month exactly when its flag
      parses to a number other than 0, 3, 12 and 17, and it adds its policy
      count to the total exactly when that count parses. */
  lemma OneMonth(e: Entry)
    ensures ActiveMonths([e]) == 1 <==>
      JsNumber.ParseFloat(e.value).Some? && JsNumber.ParseFloat(e.value).value !in {0.0, 3.0, 12.0, 17.0}
    ensures ActiveMonths([e]) <= 1
    ensures JsNumber.ParseFloat(e.value).Some? ==> TotalPolicies([e]) == JsNumber.ParseFloat(e.value).value
    ensures JsNumber.ParseFloat(e.value).None? ==> TotalPolicies([e]) == 0.0
  {
    assert [e][..0] == [];
  }

  /** `calculateMediaProductiva`: the total of the policy counts over the
      number of active months, rounded half up to hundredths; not available
      when either month object is missing or no month is active. */
  function MeanProductivity(agent: RawAgent): (m: Media)
    ensures m.NotAvailable? <==>
      agent.tipoData.None? || agent.polFisData.None? || ActiveMonths(agent.tipoData.value) == 0
    ensures m.Rounded? ==>
      var exact := TotalPolicies(agent.polFisData.value) / ActiveMonths(agent.tipoData.value) as real;
      m.hundredths as real - 0.5 <= 100.0 * exact < m.hundredths as real + 0.5
  {
    if agent.tipoData.None? || agent.polFisData.None? then NotAvailable
    else
      var active := ActiveMonths(agent.tipoData.value);
      var total := TotalPolicies(agent.polFisData.value);
      if active > 0 then Rounded(JsNumber.Round(total / active as real * 100.0)) else NotAvailable
  }

  /** The text stored in `mediaProductiva`: "N/A", or a number that reads back as the rounded mean. */
  function MediaText(m: Media): (s: string)
    ensures s == NotAvailableText <==> m.NotAvailable?
    ensures m.Rounded? ==> JsNumber.ParseFloat(s).Some? && JsNumber.ParseFloat(s).value == m.hundredths as real / 100.0
  {
    match m
    case NotAvailable => NotAvailableText
    case Rounded(k) =>
      var s := JsNumber.HundredthsToString(k);
      JsNumber.HundredthsRoundTrip(k);
      assert s[0] != NotAvailableText[0];
      s
  }

  /** The row the page builds for one stored agent. */
  function Normalize(agent: RawAgent): (row: Row)
    ensures row.cod != "" && row.agentName != "" && row.tipo != "" && row.inspector != ""
    ensures row.cod == (if IsTruthy(agent.cod) then agent.cod.value else NotAvailableText)
    ensures row.agentName == (if IsTruthy(agent.agentName) then agent.agentName.value else NoName)
    ensures row.tipo == (if IsTruthy(agent.tipo) then agent.tipo.value else Unknown)
    ensures row.inspector == (if IsTruthy(agent.inspector) then agent.inspector.value else Unknown)
    ensures row.mediaProductiva == MediaText(MeanProductivity(agent))
    ensures row.polFisData == agent.polFisData.GetOr([]) && row.tipoData == agent.tipoData.GetOr([])
    ensures row.medianaProductiva.None?
  {
    Row(
      if IsTruthy(agent.cod) then agent.cod.value else NotAvailableText,
      if IsTruthy(agent.agentName) then agent.agentName.value else NoName,
      if IsTruthy(agent.tipo) then agent.tipo.value else Unknown,
      if IsTruthy(agent.inspector) then agent.inspector.value else Unknown,
      MediaText(MeanProductivity(agent)),
      agent.polFisData.GetOr([]),
      agent.tipoData.GetOr([]),
      None)
  }

  /** The rows of the table: one per stored agent, in the store's order. */
  function NormalizeAll(agentData: seq<RawAgent>): (rows: seq<Row>)
    ensures |rows| == |agentData|
    ensures forall k :: 0 <= k < |rows| ==> rows[k] == Normalize(agentData[k])
  {
    seq(|agentData|, k requires 0 <= k < |agentData| => Normalize(agentData[k]))
  }

  /** The mean is taken from the raw record, before defaulting: an agent
      without policy counts but with an active month shows "N/A", whereas
      the same agent with an empty policy object shows "0". */
  lemma MissingPoliciesDiffersFromEmpty(flags: Months)
    requires ActiveMonths(flags) > 0
    ensures MeanProductivity(RawAgent(None, None, None, None, None, Some(flags))) == NotAvailable
    ensures MeanProductivity(RawAgent(None, None, None, None, Some([]), Some(flags))) == Rounded(0)
  {
    var active := ActiveMonths(flags);
    assert TotalPolicies([]) == 0.0;
    assert 0.0 / active as real * 100.0 == 0.0;
    assert JsNumber.Round(0.0) == 0;
  }
}
