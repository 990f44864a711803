/** The upload handler of the home page (src/HomePage.js): the file-name
    test, the projection of the first sheet's rows to agent records, and the
    busy flag, snackbar and store around the asynchronous read. */
module Upload {
  import opened Wrappers
  import Seqs

  /** A cell value as the sheet decoder delivers it. */
  datatype Cell = Text(text: string) | Number(number: real) | Boolean(flag: bool)

  /** One decoded sheet row: column header to cell; a missing key is an empty cell. */
  type SheetRow = map<string, Cell>

  /** The decoded workbook: its sheets in `SheetNames` order. */
  datatype Workbook = Workbook(sheets: seq<seq<SheetRow>>)

  /** What the read of the file gives: a workbook, or a failure of the decoder. */
  datatype ReadOutcome = Decoded(workbook: Workbook) | Undecodable

  /** One stored record: `{ agentName: row['AGENTE'] }`, `None` for `undefined`. */
  datatype AgentRecord = AgentRecord(agentName: Option<Cell>)

  datatype Severity = Success | Error

  const AgentColumn := "AGENTE"
  const Xlsx := "xlsx"
  /** The snackbar texts. */
  datatype Message = NoMessage | WrongType | Loaded | Failed {
    function Text(): string {
      match this
      case NoMessage => ""
      case WrongType => "El archivo debe ser de tipo .xlsx"
      case Loaded => "Archivo cargado exitosamente."
      case Failed => "Error al procesar el archivo."
    }
  }

  /** The position of the last dot in `s`, if there is one. */
  function LastDot(s: string): (i: Option<nat>)
    ensures i.Some? ==> i.value < |s| && s[i.value] == '.' && '.' !in s[i.value + 1..]
    ensures i.None? ==> '.' !in s
  {
    if |s| == 0 then None
    else if s[|s| - 1] == '.' then Some(|s| - 1)
    else
      var i := LastDot(s[..|s| - 1]);
      assert s == s[..|s| - 1] + [s[|s| - 1]];
      if i.Some? then assert s[i.value + 1..] == s[..|s| - 1][i.value + 1..] + [s[|s| - 1]]; i else i
  }

  /** `name.split('.').pop()`: the text after the last dot, or the whole name without one. */
  function Extension(name: string): (ext: string)
    ensures |ext| <= |name| && name[|name| - |ext|..] == ext
    ensures '.' !in ext
    ensures |ext| < |name| ==> name[|name| - |ext| - 1] == '.'
  {
    var dot := LastDot(name);
    if dot.Some? then name[dot.value + 1..] else name
  }

  /** The test `handleFileUpload` applies to the file name. */
  predicate IsXlsx(name: string) {
    Extension(name) == Xlsx
  }

  /** The name is "xlsx" or ends in ".xlsx". */
  predicate HasXlsxSuffix(name: string) {
    name == Xlsx || (|name| >= 5 && name[|name| - 5..] == "." + Xlsx)
  }

  /** A name the test accepts ends in ".xlsx" or is "xlsx". */
  lemma AcceptedHasSuffix(name: string)
    requires IsXlsx(name)
    ensures HasXlsxSuffix(name)
  {
    var ext := Extension(name);
    assert name[|name| - 4..] == Xlsx;
    if |name| > 4 {
      assert name[|name| - 5] == '.';
      assert name[|name| - 5..] == [name[|name| - 5]] + name[|name| - 4..];
    }
  }

  /** Text without a dot appended to a name does not move its last dot. */
  lemma {:induction false} LastDotSkips(s: string, t: string)
    requires '.' !in t
    ensures LastDot(s + t) == LastDot(s)
  {
    if |t| == 0 {
      assert s + t == s;
    } else {
      var st := s + t;
      assert st[|st| - 1] == t[|t| - 1];
      assert st[..|st| - 1] == s + t[..|t| - 1];
      LastDotSkips(s, t[..|t| - 1]);
    }
  }

  /** In a name ending in ".xlsx" the last dot is the one before "xlsx". */
  lemma LastDotBeforeSuffix(name: string)
    requires |name| >= 5 && name[|name| - 5..] == "." + Xlsx
    ensures LastDot(name) == Some(|name| - 5)
  {
    var n := |name|;
    var front := name[..n - 4];
    assert name == front + Xlsx;
    assert front[|front| - 1] == '.';
    LastDotSkips(front, Xlsx);
  }

  /** A name that ends in ".xlsx", or is "xlsx", passes the test. */
  lemma SuffixAccepted(name: string)
    requires HasXlsxSuffix(name)
    ensures IsXlsx(name)
  {
    if name == Xlsx {
      assert LastDot(name).None?;
    } else {
      LastDotBeforeSuffix(name);
      assert name[|name| - 4..] == name[|name| - 5..][1..];
    }
  }

  /** The test accepts exactly the names that end in ".xlsx", and the bare
      name "xlsx"; letter case matters. */
  lemma IsXlsxMeaning(name: string)
    ensures IsXlsx(name) <==> HasXlsxSuffix(name)
  {
    if IsXlsx(name) {
      AcceptedHasSuffix(name);
    }
    if HasXlsxSuffix(name) {
      SuffixAccepted(name);
    }
  }

  /** Sample names that pass the test. */
  lemma AcceptedNames()
    ensures IsXlsx("agentes.xlsx") && IsXlsx("xlsx") && IsXlsx("informe.2024.xlsx")
  {
    AcceptedName("agentes", "agentes.xlsx");
    SuffixAccepted("xlsx");
    AcceptedName("informe.2024", "informe.2024.xlsx");
  }

  /** A stem followed by ".xlsx" passes the test, whatever dots the stem holds. */
  lemma AcceptedName(stem: string, name: string)
    requires name == stem + "." + Xlsx
    ensures IsXlsx(name)
  {
    assert name[|name| - 5..] == "." + Xlsx;
    SuffixAccepted(name);
  }

  /** Sample names that fail it: case matters and only the last dot counts. */
  lemma RejectedNames()
    ensures !IsXlsx("agentes.XLSX") && !IsXlsx("agentes.xlsx.csv") && !IsXlsx("agentes")
  {
    IsXlsxMeaning("agentes.XLSX");
    IsXlsxMeaning("agentes.xlsx.csv");
    IsXlsxMeaning("agentes");
  }

  /** JavaScript truthiness of a cell; `NaN` is not modelled. */
  predicate IsTruthy(cell: Option<Cell>) {
    match cell
    case None => false
    case Some(Text(t)) => t != ""
    case Some(Number(x)) => x != 0.0
    case Some(Boolean(b)) => b
  }

  /** `item => item.agentName`: the record has a truthy name. */
  predicate IsNamed(r: AgentRecord) {
    IsTruthy(r.agentName)
  }

  function ToRecord(row: SheetRow): AgentRecord {
    AgentRecord(if AgentColumn in row then Some(row[AgentColumn]) else None)
  }

  predicate HasAgent(row: SheetRow) {
    IsTruthy(ToRecord(row).agentName)
  }

  /** `jsonData.map(...).filter(item => item.agentName)`. */
  function ProjectAgents(rows: seq<SheetRow>): (agents: seq<AgentRecord>)
    ensures forall k :: 0 <= k < |agents| ==> IsTruthy(agents[k].agentName)
  {
    Seqs.Filter(Seqs.Map(rows, ToRecord), IsNamed)
  }

  /** Projecting then dropping nameless records is keeping the named rows and
      projecting them: one record per named row, in row order. */
  lemma ProjectionKeepsNamedRows(rows: seq<SheetRow>)
    ensures ProjectAgents(rows) == Seqs.Map(Seqs.Filter(rows, HasAgent), ToRecord)
    ensures |ProjectAgents(rows)| == Seqs.Count(rows, HasAgent)
  {
    Seqs.FilterMap(rows, ToRecord, IsNamed, HasAgent);
    Seqs.FilterCount(rows, HasAgent);
  }

  /** The records of the first sheet, or `None` when decoding throws. A
      workbook without sheets has no first sheet: its rows are read from an
      undefined worksheet, which yields no rows, so the load still succeeds
      with no agents. */
  function FirstSheetAgents(outcome: ReadOutcome): (agents: Option<seq<AgentRecord>>)
    ensures agents.Some? <==> outcome.Decoded?
    ensures agents.Some? && |outcome.workbook.sheets| > 0 ==>
      agents.value == ProjectAgents(outcome.workbook.sheets[0])
    ensures agents.Some? && |outcome.workbook.sheets| == 0 ==> agents.value == []
  {
    if outcome.Undecodable? then None
    else if |outcome.workbook.sheets| > 0 then Some(ProjectAgents(outcome.workbook.sheets[0]))
    else Some([])
  }

  class HomePage {
    var fileName: string
    var loading: bool
    var openSnackbar: bool
    var snackbarMessage: Message
    var snackbarSeverity: Severity
    /** The shared store the analysis page reads. */
    var agentData: seq<AgentRecord>
    /** Whether the page has navigated to the analysis view. */
    var navigated: bool

    ghost predicate Valid()
      reads this
    {
      && (loading ==> HasXlsxSuffix(fileName))
      && (forall k :: 0 <= k < |agentData| ==> IsTruthy(agentData[k].agentName))
    }

    constructor ()
      ensures Valid()
      ensures fileName == "" && !loading && !openSnackbar && snackbarMessage == NoMessage
      ensures snackbarSeverity == Success && agentData == [] && !navigated
    {
      fileName := "";
      loading := false;
      openSnackbar := false;
      snackbarMessage := NoMessage;
      snackbarSeverity := Success;
      agentData := [];
      navigated := false;
    }

    /** `handleFileUpload` up to the start of the read. `file` is the chosen
        file's name, `None` when the picker was dismissed. The upload control
        is disabled while a read is under way. */
    method HandleFileUpload(file: Option<string>) returns (startsRead: bool)
      requires Valid() && !loading
      modifies this
      ensures Valid()
      ensures startsRead <==> file.Some? && IsXlsx(file.value)
      ensures file.None? ==>
        && fileName == old(fileName) && !loading && openSnackbar == old(openSnackbar)
        && snackbarMessage == old(snackbarMessage) && snackbarSeverity == old(snackbarSeverity)
      ensures file.Some? && !IsXlsx(file.value) ==>
        && snackbarMessage == WrongType && snackbarSeverity == Error && openSnackbar
        && fileName == old(fileName) && !loading
      ensures startsRead ==>
        && fileName == file.value && loading
        && openSnackbar == old(openSnackbar) && snackbarMessage == old(snackbarMessage)
        && snackbarSeverity == old(snackbarSeverity)
      ensures agentData == old(agentData) && navigated == old(navigated)
    {
      if file.None? {
        return false;
      }
      var name := file.value;
      if Extension(name) != Xlsx {
        snackbarMessage := WrongType;
        snackbarSeverity := Error;
        openSnackbar := true;
        return false;
      }
      IsXlsxMeaning(name);
      fileName := name;
      loading := true;
      return true;
    }

    /** `reader.onload`: on success the store holds the projected records
        and the page moves on; on failure the store is left alone. Either
        way the busy flag drops and the snackbar opens. */
    method OnLoad(outcome: ReadOutcome)
      requires Valid() && loading
      modifies this
      ensures Valid()
      ensures !loading && openSnackbar && fileName == old(fileName)
      ensures FirstSheetAgents(outcome).Some? ==>
        && agentData == FirstSheetAgents(outcome).value
        && snackbarMessage == Loaded && snackbarSeverity == Success && navigated
      ensures FirstSheetAgents(outcome).None? ==>
        && agentData == old(agentData)
        && snackbarMessage == Failed && snackbarSeverity == Error && navigated == old(navigated)
    {
      var agents := FirstSheetAgents(outcome);
      if agents.Some? {
        agentData := agents.value;
        snackbarMessage := Loaded;
        snackbarSeverity := Success;
        navigated := true;
      } else {
        snackbarMessage := Failed;
        snackbarSeverity := Error;
      }
      loading := false;
      openSnackbar := true;
    }

    method CloseSnackbar()
      requires Valid()
      modifies this
      ensures Valid()
      ensures !openSnackbar
      ensures fileName == old(fileName) && loading == old(loading) && snackbarMessage == old(snackbarMessage)
      ensures snackbarSeverity == old(snackbarSeverity) && agentData == old(agentData) && navigated == old(navigated)
    {
      openSnackbar := false;
    }
  }
}
