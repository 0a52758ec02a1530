/**
 * Extraction of the current-semester grade records from the portal's grades
 * page, over the page as already parsed: the model's datatypes hold exactly
 * what the HTML queries of the extractor return.
 */
module Scraper {
  import opened Wrappers
  import opened Text
  import opened Dicts
  import opened Grades

  /** Text of the heading that marks the current-semester grades block. */
  const GradesHeading: string := "Notas (Semestre Atual)"
  /** A row label containing either marker holds the subject's average. */
  const AverageMarker: string := "M\U{E9}dia"
  const FinalMarker: string := "Final"

  /** The stripped texts of the `td` cells of one table row. */
  type Row = seq<string>

  /** A `table`; `body` is the list of `tr` rows of its `tbody`, None when it has no `tbody`. */
  datatype Table = Table(body: Option<seq<Row>>)

  /** An `h4.panel-title`; `anchor` is the text of its `a.tabela-notas` (pieces joined by spaces), if any. */
  datatype PanelTitle = PanelTitle(anchor: Option<string>)

  /** A `div.panel.panel-default`: its title heading and its first table, each if present. */
  datatype Panel = Panel(title: Option<PanelTitle>, table: Option<Table>)

  /** A `div.bloco-conteudo-intermediario` and the panels inside it, in document order. */
  datatype ContentBlock = ContentBlock(panels: seq<Panel>)

  /**
   * A `div.bloco-conteudo-cabecalho`: the text of its first `h4`, if any, and the
   * next sibling content block, if any.
   */
  datatype HeaderBlock = HeaderBlock(heading: Option<string>, nextContent: Option<ContentBlock>)

  /** The grades page: its header blocks in document order. */
  datatype Document = Document(headers: seq<HeaderBlock>)

  /** The structural gaps that make the extraction fail. */
  datatype ExtractionError = HeaderNotFound | ContentBlockNotFound | NoPanelsFound

  // ---------------------------------------------------------------------------
  // Table rows

  /** `"Média" in label or "Final" in label`. */
  predicate IsAverageLabel(key: string)
  {
    Contains(key, AverageMarker) || Contains(key, FinalMarker)
  }

  /** A normalized value: null, or a non-empty text without a decimal comma. */
  predicate Normalized(v: Option<string>)
  {
    v.None? || (v.value != "" && ',' !in v.value)
  }

  /** A cell text as stored: decimal commas become dots, an empty cell becomes None. */
  function Normalize(cell: string): (v: Option<string>)
    ensures Normalized(v)
    ensures v.None? <==> cell == ""
    ensures v.Some? ==> (|v.value| == |cell|
      && forall k :: 0 <= k < |cell| ==> v.value[k] == (if cell[k] == ',' then '.' else cell[k]))
  {
    if cell != "" then Some(ReplaceChar(cell, ',', '.')) else None
  }

  /** A row the first pass turns into a score: two cells or more, a non-empty label that is no average marker. */
  predicate IsScoreRow(row: Row)
  {
    |row| >= 2 && row[0] != "" && !IsAverageLabel(row[0])
  }

  /** A row the first pass takes the average from. */
  predicate IsAverageRow(row: Row)
  {
    |row| >= 2 && IsAverageLabel(row[0])
  }

  /** The `grades[key] = value` assignments of the first pass, in row order. */
  function ScoreAssignments(rows: seq<Row>): (ps: seq<(string, Option<string>)>)
    ensures forall p :: p in ps ==> exists row :: row in rows && IsScoreRow(row) && p == (row[0], Normalize(row[1]))
    ensures forall row :: row in rows && IsScoreRow(row) ==> row[0] in Keys(ps)
  {
    if rows == [] then []
    else
      var n := |rows| - 1;
      var ps := ScoreAssignments(rows[..n]);
      assert rows == rows[..n] + [rows[n]];
      if IsScoreRow(rows[n]) then
        var r := ps + [(rows[n][0], Normalize(rows[n][1]))];
        assert Keys(r) == Keys(ps) + [rows[n][0]];
        r
      else ps
  }

  /** A score dict as the extractor builds it. */
  predicate WellFormedScores(s: Scores)
  {
    && WellFormed(s)
    && forall i :: 0 <= i < |s| ==> s[i].0 != "" && !IsAverageLabel(s[i].0) && Normalized(s[i].1)
  }

  /** The scores of a table's rows: the dict the first pass builds. */
  function TableScores(rows: seq<Row>): (s: Scores)
    ensures WellFormedScores(s)
    ensures forall row :: row in rows && IsScoreRow(row) ==> row[0] in Keys(s)
  {
    ScoreDictFacts(rows);
    FromPairs(ScoreAssignments(rows))
  }

  /** The dict built from the first pass's assignments holds only scores and every score row's label. */
  lemma ScoreDictFacts(rows: seq<Row>)
    ensures WellFormedScores(FromPairs(ScoreAssignments(rows)))
    ensures forall row :: row in rows && IsScoreRow(row) ==> row[0] in Keys(FromPairs(ScoreAssignments(rows)))
  {
    var ps := ScoreAssignments(rows);
    var d := FromPairs(ps);
    FromPairsEntries(ps);
    FromPairsKeys(ps);
    forall i | 0 <= i < |d| ensures d[i].0 != "" && !IsAverageLabel(d[i].0) && Normalized(d[i].1) {
      assert d[i] in ps;
      var row :| row in rows && IsScoreRow(row) && d[i] == (row[0], Normalize(row[1]));
    }
  }

  /** The table's score labels are its score rows' labels, in order of first appearance. */
  lemma TableScoresKeys(rows: seq<Row>)
    ensures Keys(TableScores(rows)) == FirstOccurrences(Keys(ScoreAssignments(rows)))
    ensures forall k :: k in Keys(TableScores(rows)) ==> exists row :: row in rows && IsScoreRow(row) && row[0] == k
  {
    var ps := ScoreAssignments(rows);
    FromPairsKeys(ps);
    forall k | k in Keys(TableScores(rows)) ensures exists row :: row in rows && IsScoreRow(row) && row[0] == k {
      assert k in Keys(ps);
      var i :| 0 <= i < |ps| && Keys(ps)[i] == k;
      assert ps[i] in ps;
    }
  }

  /** A repeated label takes the value of the last row that carries it. */
  lemma TableScoresValue(rows: seq<Row>, key: string)
    ensures Get(TableScores(rows), key) == LastValue(ScoreAssignments(rows), key)
  {
    FromPairsGet(ScoreAssignments(rows), key);
  }

  /** The average the first pass ends with: the value of the last average row, None when there is none. */
  function AverageOf(rows: seq<Row>): (a: Option<string>)
    ensures Normalized(a)
    ensures (forall i :: 0 <= i < |rows| ==> !IsAverageRow(rows[i])) ==> a.None?
    ensures a.Some? ==> exists i :: 0 <= i < |rows| && IsAverageRow(rows[i]) && a == Normalize(rows[i][1])
  {
    if rows == [] then None
    else
      var n := |rows| - 1;
      if IsAverageRow(rows[n]) then Normalize(rows[n][1]) else AverageOf(rows[..n])
  }

  /** The average is the normalized value of the last average row. */
  lemma {:induction false} AverageOfLastRow(rows: seq<Row>, i: nat)
    requires i < |rows| && IsAverageRow(rows[i])
    requires forall j :: i < j < |rows| ==> !IsAverageRow(rows[j])
    ensures AverageOf(rows) == Normalize(rows[i][1])
    decreases |rows|
  {
    var n := |rows| - 1;
    if i < n {
      var init := rows[..n];
      assert init[i] == rows[i];
      assert forall j :: i < j < n ==> init[j] == rows[j];
      assert !IsAverageRow(rows[n]);
      AverageOfLastRow(init, i);
      AverageOfSkip(rows);
    }
  }

  /** A last row that is no average row leaves the average as it was. */
  lemma AverageOfSkip(rows: seq<Row>)
    requires rows != [] && !IsAverageRow(rows[|rows| - 1])
    ensures AverageOf(rows) == AverageOf(rows[..|rows| - 1])
  {
  }

  /** One more row extends the first pass's assignments and average as the loop body does. */
  lemma FirstPassStep(rows: seq<Row>, i: nat)
    requires i < |rows|
    ensures FromPairs(ScoreAssignments(rows[..i + 1]))
      == if IsScoreRow(rows[i]) then Put(FromPairs(ScoreAssignments(rows[..i])), rows[i][0], Normalize(rows[i][1]))
         else FromPairs(ScoreAssignments(rows[..i]))
    ensures AverageOf(rows[..i + 1]) == if IsAverageRow(rows[i]) then Normalize(rows[i][1]) else AverageOf(rows[..i])
  {
    var prefix := rows[..i + 1];
    assert prefix[..i] == rows[..i] && prefix[i] == rows[i];
    var ps := ScoreAssignments(rows[..i]);
    if IsScoreRow(rows[i]) {
      var qs := ScoreAssignments(prefix);
      assert qs == ps + [(rows[i][0], Normalize(rows[i][1]))];
      assert qs[..|qs| - 1] == ps;
      FromPairsSnoc(qs);
    }
  }

  /** `table.find("tbody").find_all("tr") if table and table.find("tbody") else []`. */
  function RowsOf(table: Option<Table>): (rows: seq<Row>)
    ensures table.None? || table.value.body.None? ==> rows == []
  {
    match table
    case None => []
    case Some(t) => match t.body
      case None => []
      case Some(rows) => rows
  }

  /**
   * The score dict and the average of a panel's table, in two passes over its
   * rows: the first classifies each row, the second adds with a null value every
   * score label the first pass left out.
   */
  method ExtractTableData(table: Option<Table>) returns (scores: Scores, average: Option<string>)
    ensures scores == TableScores(RowsOf(table))
    ensures average == AverageOf(RowsOf(table))
    ensures WellFormedScores(scores) && Normalized(average)
    ensures RowsOf(table) == [] ==> scores == [] && average == None
  {
    var rows := RowsOf(table);
    scores, average := [], None;
    var i := 0;
    while i < |rows|
      invariant 0 <= i <= |rows|
      invariant scores == FromPairs(ScoreAssignments(rows[..i]))
      invariant average == AverageOf(rows[..i])
    {
      var row := rows[i];
      FirstPassStep(rows, i);
      if |row| >= 2 {
        var key := row[0];
        var value := if row[1] != "" then Some(ReplaceChar(row[1], ',', '.')) else None;
        if IsAverageLabel(key) {
          average := value;
        } else if key != "" {
          scores := Put(scores, key, value);
        }
      }
      i := i + 1;
    }
    assert rows[..i] == rows;
    var j := 0;
    while j < |rows|
      invariant 0 <= j <= |rows|
      invariant scores == TableScores(rows)
    {
      var row := rows[j];
      if |row| >= 2 {
        var key := row[0];
        if key != "" && key !in Keys(scores) && !IsAverageLabel(key) {
          scores := Put(scores, key, None);
        }
      }
      j := j + 1;
    }
  }

  // ---------------------------------------------------------------------------
  // Panels

  /**
   * `_extract_subject_name`: the anchor text, stripped and split on `-`; the
   * second piece, stripped, when there are at least two.
   */
  function SubjectName(title: PanelTitle): (name: Option<string>)
    ensures name.None? <==> title.anchor.None? || '-' !in title.anchor.value
    ensures name.Some? ==> '-' !in name.value
  {
    match title.anchor
    case None => None
    case Some(text) =>
      var parts := Split(Strip(text), '-');
      assert '-' in text ==> '-' in Strip(text);
      if |parts| >= 2 then Some(Strip(parts[1])) else None
  }

  /** The subject name is the stripped text between the first `-` (at `i`) and the next one. */
  lemma SubjectNameBetweenDashes(text: string, i: nat)
    requires IndexOf(Strip(text), '-') == Some(i)
    ensures SubjectName(PanelTitle(Some(text))) == Some(Strip(BeforeFirst(Strip(text)[i + 1..], '-')))
  {
    SplitSecond(Strip(text), '-', i);
  }

  /** The record a panel contributes: None for a panel without a title or a non-empty subject name. */
  function PanelRecord(panel: Panel): (r: Option<Record>)
    ensures r.Some? ==> r.value.name != "" && '-' !in r.value.name
    ensures r.Some? ==> WellFormedScores(r.value.scores) && Normalized(r.value.average)
    ensures r.Some? <==> panel.title.Some? && SubjectName(panel.title.value).Some? && SubjectName(panel.title.value) != Some("")
  {
    match panel.title
    case None => None
    case Some(title) =>
      match SubjectName(title)
      case None => None
      case Some(name) =>
        if name == "" then None
        else Some(Record(name, TableScores(RowsOf(panel.table)), AverageOf(RowsOf(panel.table))))
  }

  /** A named panel without a table, or whose table has no body, still yields a record, with no scores and no average. */
  lemma PanelWithoutRows(panel: Panel, name: string)
    requires panel.title.Some? && SubjectName(panel.title.value) == Some(name) && name != ""
    requires panel.table.None? || panel.table.value.body.None?
    ensures PanelRecord(panel) == Some(Record(name, [], None))
  {
    assert RowsOf(panel.table) == [];
    assert ScoreAssignments([]) == [];
  }

  /** The records of the panels that yield one, in panel order. */
  function PanelRecords(panels: seq<Panel>): (rs: seq<Record>)
    ensures |rs| <= |panels|
    ensures forall r :: r in rs ==> r.name != "" && '-' !in r.name
  {
    if panels == [] then []
    else
      var n := |panels| - 1;
      PanelRecords(panels[..n]) + match PanelRecord(panels[n]) case None => [] case Some(r) => [r]
  }

  /**
   * Panels contribute independently and in order: the records of two runs of
   * panels are those of the first run followed by those of the second.
   */
  lemma {:induction false} PanelRecordsAppend(a: seq<Panel>, b: seq<Panel>)
    ensures PanelRecords(a + b) == PanelRecords(a) + PanelRecords(b)
    decreases |b|
  {
    if b == [] {
      assert a + b == a;
    } else {
      var n := |b| - 1;
      assert (a + b)[..|a + b| - 1] == a + b[..n];
      assert (a + b)[|a + b| - 1] == b[n];
      PanelRecordsAppend(a, b[..n]);
    }
  }

  // ---------------------------------------------------------------------------
  // The page

  /** A header block whose `h4` contains the grades heading. */
  predicate IsGradesHeader(h: HeaderBlock)
  {
    h.heading.Some? && Contains(h.heading.value, GradesHeading)
  }

  /** `i` is the index of the first grades header block. */
  predicate FirstGradesHeader(headers: seq<HeaderBlock>, i: int)
  {
    0 <= i < |headers| && IsGradesHeader(headers[i]) && forall j :: 0 <= j < i ==> !IsGradesHeader(headers[j])
  }

  /** `_find_grades_header_block`: the first header block whose heading contains the grades heading. */
  function FindGradesHeader(headers: seq<HeaderBlock>): (r: Option<nat>)
    ensures r.None? <==> forall h :: h in headers ==> !IsGradesHeader(h)
    ensures r.Some? ==> FirstGradesHeader(headers, r.value)
  {
    if headers == [] then None
    else if IsGradesHeader(headers[0]) then Some(0)
    else
      assert headers == [headers[0]] + headers[1..];
      match FindGradesHeader(headers[1..])
      case None => None
      case Some(i) => Some(i + 1)
  }

  /** There is at most one first grades header. */
  lemma FirstGradesHeaderUnique(headers: seq<HeaderBlock>, i: nat)
    requires FirstGradesHeader(headers, i)
    ensures forall j :: FirstGradesHeader(headers, j) ==> j == i
  {
  }

  /** What `extrair_notas` returns for a page, or the error it raises. */
  function Extraction(doc: Document): (r: Result<seq<Record>, ExtractionError>)
    ensures r == Failure(HeaderNotFound) <==> forall h :: h in doc.headers ==> !IsGradesHeader(h)
    ensures r == Failure(ContentBlockNotFound) <==>
      exists i :: FirstGradesHeader(doc.headers, i) && doc.headers[i].nextContent.None?
    ensures r == Failure(NoPanelsFound) <==>
      exists i :: FirstGradesHeader(doc.headers, i) && doc.headers[i].nextContent == Some(ContentBlock([]))
    ensures r.Success? ==>
      exists i :: FirstGradesHeader(doc.headers, i) && doc.headers[i].nextContent.Some?
        && doc.headers[i].nextContent.value.panels != []
        && r.value == PanelRecords(doc.headers[i].nextContent.value.panels)
  {
    match FindGradesHeader(doc.headers)
    case None => Failure(HeaderNotFound)
    case Some(i) =>
      FirstGradesHeaderUnique(doc.headers, i);
      assert doc.headers[i] in doc.headers;
      match doc.headers[i].nextContent
      case None => Failure(ContentBlockNotFound)
      case Some(block) =>
        if block.panels == [] then Failure(NoPanelsFound) else Success(PanelRecords(block.panels))
  }

  /**
   * `extrair_notas`: locate the grades block, then one record per panel that has
   * a title with a non-empty subject name, in panel order.
   */
  method ExtractGrades(doc: Document) returns (r: Result<seq<Record>, ExtractionError>)
    ensures r == Extraction(doc)
    ensures r.Success? ==> forall rec :: rec in r.value ==>
      rec.name != "" && WellFormedScores(rec.scores) && Normalized(rec.average)
  {
    var header := FindGradesHeader(doc.headers);
    if header.None? {
      return Failure(HeaderNotFound);
    }
    var block := doc.headers[header.value].nextContent;
    if block.None? {
      return Failure(ContentBlockNotFound);
    }
    var panels := block.value.panels;
    if panels == [] {
      return Failure(NoPanelsFound);
    }
    var result: seq<Record> := [];
    for i := 0 to |panels|
      invariant result == PanelRecords(panels[..i])
      invariant forall rec :: rec in result ==> rec.name != "" && WellFormedScores(rec.scores) && Normalized(rec.average)
    {
      var panel := panels[i];
      assert panels[..i + 1][..i] == panels[..i];
      if panel.title.None? {
        continue;
      }
      var name := SubjectName(panel.title.value);
      if name.None? || name.value == "" {
        continue;
      }
      var scores, average := ExtractTableData(panel.table);
      result := result + [Record(name.value, scores, average)];
    }
    assert panels[..|panels|] == panels;
    r := Success(result);
  }
}
