/**
 * Change detection between two grade snapshots and the rendering of the
 * e-mail report (subject line, plain-text body and HTML body).
 */
module Notifier {
  import opened Wrappers
  import opened Text
  import opened Dicts
  import opened Grades

  /** One reported subject: `(name, old_dict.get(name), new_grade)`. */
  datatype Change = Change(name: string, previous: Option<Record>, current: Record)

  /** The names of a list of changes, in order. */
  function ChangeNames(cs: seq<Change>): (ns: seq<string>)
    ensures |ns| == |cs|
    ensures forall i :: 0 <= i < |cs| ==> ns[i] == cs[i].name
  {
    seq(|cs|, i requires 0 <= i < |cs| => cs[i].name)
  }

  /** `a` is `b` with some of its elements left out, the rest in the same order. */
  predicate IsSubsequence<T(==)>(a: seq<T>, b: seq<T>)
  {
    if a == [] then true
    else if b == [] then false
    else if a[|a| - 1] == b[|b| - 1] then IsSubsequence(a[..|a| - 1], b[..|b| - 1])
    else IsSubsequence(a, b[..|b| - 1])
  }

  /** Dropping the last element of a subsequence leaves a subsequence. */
  lemma {:induction false} SubsequenceDropLast<T>(a: seq<T>, b: seq<T>)
    requires IsSubsequence(a, b) && a != []
    ensures IsSubsequence(a[..|a| - 1], b)
    decreases |a| + |b|, 0
  {
    var m, n := |a| - 1, |b| - 1;
    if a[m] == b[n] {
      SubsequenceExtend(a[..m], b[..n], b[n]);
    } else {
      SubsequenceDropLast(a, b[..n]);
      SubsequenceExtend(a[..m], b[..n], b[n]);
    }
    assert b[..n] + [b[n]] == b;
  }

  /** A subsequence stays one when the list grows at its end. */
  lemma {:induction false} SubsequenceExtend<T>(a: seq<T>, b: seq<T>, x: T)
    requires IsSubsequence(a, b)
    ensures IsSubsequence(a, b + [x])
    decreases |a| + |b|, 1
  {
    assert (b + [x])[..|b|] == b;
    if a != [] && a[|a| - 1] == x {
      SubsequenceDropLast(a, b);
    }
  }

  /** A subsequence of a list without repetitions has none either, and only elements of the list. */
  lemma {:induction false} SubsequenceDistinct<T>(a: seq<T>, b: seq<T>)
    requires IsSubsequence(a, b) && Distinct(b)
    ensures Distinct(a)
    ensures forall x :: x in a ==> x in b
  {
    if a != [] {
      var m, n := |a| - 1, |b| - 1;
      assert Distinct(b[..n]);
      if a[m] == b[n] {
        SubsequenceDistinct(a[..m], b[..n]);
        assert b[n] !in b[..n] by {
          assert forall k :: 0 <= k < n ==> b[..n][k] == b[k] != b[n];
        }
        forall i, j | 0 <= i < j < |a| ensures a[i] != a[j] {
          if j == m {
            assert a[..m][i] == a[i];
          } else {
            assert a[..m][i] == a[i] && a[..m][j] == a[j];
          }
        }
        assert a == a[..m] + [a[m]];
      } else {
        SubsequenceDistinct(a, b[..n]);
      }
    }
  }

  /**
   * The list comprehension of `_get_grade_changes`: the entries of `entries`
   * (the new records by name) whose record differs from what `before` (the old
   * records by name) holds under the same name.
   */
  function Select(entries: Dict<string, Record>, before: Dict<string, Record>): seq<Change>
  {
    if entries == [] then []
    else
      var n := |entries| - 1;
      var e := entries[n];
      Select(entries[..n], before)
      + if Differs(Get(before, e.0), e.1) then [Change(e.0, Get(before, e.0), e.1)] else []
  }

  /** Every selected change comes from an entry whose record differs from the old one. */
  lemma {:induction false} SelectSound(entries: Dict<string, Record>, before: Dict<string, Record>, c: Change)
    requires c in Select(entries, before)
    ensures (c.name, c.current) in entries && c.previous == Get(before, c.name) && Differs(c.previous, c.current)
  {
    var n := |entries| - 1;
    var e := entries[n];
    if c in Select(entries[..n], before) {
      SelectSound(entries[..n], before, c);
    }
  }

  /** Every entry whose record differs from the old one is selected. */
  lemma {:induction false} SelectComplete(entries: Dict<string, Record>, before: Dict<string, Record>, i: nat)
    requires i < |entries| && Differs(Get(before, entries[i].0), entries[i].1)
    ensures Change(entries[i].0, Get(before, entries[i].0), entries[i].1) in Select(entries, before)
  {
    var n := |entries| - 1;
    if i < n {
      SelectComplete(entries[..n], before, i);
    }
  }

  /** The selected names keep the order of the entries. */
  lemma {:induction false} SelectOrder(entries: Dict<string, Record>, before: Dict<string, Record>)
    ensures IsSubsequence(ChangeNames(Select(entries, before)), Keys(entries))
  {
    if entries != [] {
      var n := |entries| - 1;
      var e := entries[n];
      var cs := Select(entries[..n], before);
      SelectOrder(entries[..n], before);
      assert Keys(entries)[..n] == Keys(entries[..n]);
      if Differs(Get(before, e.0), e.1) {
        var r := cs + [Change(e.0, Get(before, e.0), e.1)];
        assert Select(entries, before) == r;
        assert ChangeNames(r)[..|cs|] == ChangeNames(cs);
      } else {
        assert Select(entries, before) == cs;
        SubsequenceExtend(ChangeNames(cs), Keys(entries[..n]), e.0);
        assert Keys(entries[..n]) + [e.0] == Keys(entries);
      }
    }
  }

  /** `_get_grade_changes(old_grades, new_grades)`. */
  function GradeChanges(olds: seq<Record>, news: seq<Record>): seq<Change>
  {
    Select(ByName(news), ByName(olds))
  }

  /**
   * A subject is reported exactly when it is in the new list and its (last) new
   * record differs from its (last) old record or it has no old record; subjects
   * only in the old list are never reported.
   */
  lemma GradeChangesReported(olds: seq<Record>, news: seq<Record>, n: string)
    ensures n in ChangeNames(GradeChanges(olds, news)) <==>
      Get(ByName(news), n).Some? && Differs(Get(ByName(olds), n), Get(ByName(news), n).value)
  {
    var cs := GradeChanges(olds, news);
    var entries := ByName(news);
    if n in ChangeNames(cs) {
      var i :| 0 <= i < |cs| && ChangeNames(cs)[i] == n;
      SelectSound(entries, ByName(olds), cs[i]);
      GetEntry(entries, n, cs[i].current);
    }
    if Get(entries, n).Some? && Differs(Get(ByName(olds), n), Get(entries, n).value) {
      var r := Get(entries, n).value;
      var k :| 0 <= k < |entries| && entries[k] == (n, r);
      SelectComplete(entries, ByName(olds), k);
      var c := Change(n, Get(ByName(olds), n), r);
      var i :| 0 <= i < |cs| && cs[i] == c;
      assert ChangeNames(cs)[i] == n;
    }
  }

  /** Each reported change carries the old list's and the new list's record for its name. */
  lemma GradeChangesEntry(olds: seq<Record>, news: seq<Record>, c: Change)
    requires c in GradeChanges(olds, news)
    ensures c.previous == Get(ByName(olds), c.name)
    ensures Get(ByName(news), c.name) == Some(c.current)
  {
    SelectSound(ByName(news), ByName(olds), c);
    GetEntry(ByName(news), c.name, c.current);
  }

  /** A subject new to the new list is reported with no previous record. */
  lemma NewSubjectReported(olds: seq<Record>, news: seq<Record>, n: string)
    requires n in Names(news) && n !in Names(olds)
    ensures exists c :: c in GradeChanges(olds, news) && c.name == n && c.previous.None?
  {
    ByNameGet(olds, n);
    ByNameGet(news, n);
    var r := Get(ByName(news), n).value;
    var k :| 0 <= k < |ByName(news)| && ByName(news)[k] == (n, r);
    SelectComplete(ByName(news), ByName(olds), k);
  }

  /** Reported names are distinct and follow the order in which names first appear in the new list. */
  lemma GradeChangesOrder(olds: seq<Record>, news: seq<Record>)
    ensures Distinct(ChangeNames(GradeChanges(olds, news)))
    ensures IsSubsequence(ChangeNames(GradeChanges(olds, news)), FirstOccurrences(Names(news)))
  {
    ByNameKeys(news);
    SelectOrder(ByName(news), ByName(olds));
    SubsequenceDistinct(ChangeNames(GradeChanges(olds, news)), Keys(ByName(news)));
  }

  /** Comparing a snapshot with itself reports nothing. */
  lemma IdenticalSnapshots(rs: seq<Record>)
    ensures GradeChanges(rs, rs) == []
  {
    var cs := GradeChanges(rs, rs);
    if cs != [] {
      var c := cs[0];
      SelectSound(ByName(rs), ByName(rs), c);
      GetEntry(ByName(rs), c.name, c.current);
    }
  }

  // ---------------------------------------------------------------------------
  // Rendering

  const CellOpen: string := "<td style=\"padding:4px 8px;\">"

  /** `v if v is not None else "-"`. */
  function CellText(v: Option<string>): string
  {
    if v.None? then "-" else v.value
  }

  /** The `<tr>` of one score entry. */
  function HtmlRow(entry: (string, Option<string>)): string
  {
    "<tr>" + CellOpen + entry.0 + "</td>" + CellOpen + CellText(entry.1) + "</td></tr>"
  }

  /** The rows of the entries of a score dict, in dict order. */
  function HtmlRowList(s: Scores): (rows: seq<string>)
    ensures |rows| == |s|
    ensures forall i :: 0 <= i < |s| ==> rows[i] == HtmlRow(s[i])
  {
    seq(|s|, i requires 0 <= i < |s| => HtmlRow(s[i]))
  }

  /** The rows of a slice of the entries are that slice of the rows. */
  lemma HtmlRowListSlice(s: Scores, lo: nat, hi: nat)
    requires lo <= hi <= |s|
    ensures HtmlRowList(s)[lo..hi] == HtmlRowList(s[lo..hi])
  {
    var a, b := HtmlRowList(s)[lo..hi], HtmlRowList(s[lo..hi]);
    forall k | 0 <= k < hi - lo
      ensures a[k] == b[k]
    {
      assert s[lo..hi][k] == s[lo + k];
    }
  }

  /** `_grades_to_html_rows`: one row per entry, in dict order; nothing for a missing or empty dict. */
  function HtmlRows(scores: Option<Scores>): (html: string)
    ensures scores.None? || scores.value == [] ==> html == ""
  {
    if scores.None? || scores.value == [] then "" else Concat(HtmlRowList(scores.value))
  }

  /**
   * The `i`-th entry's row sits between the rows of the entries before it and
   * those of the entries after it, and shows `-` for a null score.
   */
  lemma HtmlRowsAt(s: Scores, i: nat)
    requires i < |s|
    ensures HtmlRows(Some(s)) == HtmlRows(Some(s[..i])) + HtmlRow(s[i]) + HtmlRows(Some(s[i + 1..]))
    ensures HtmlRow(s[i]) == "<tr>" + CellOpen + s[i].0 + "</td>" + CellOpen
      + (if s[i].1.None? then "-" else s[i].1.value) + "</td></tr>"
  {
    var rows := HtmlRowList(s);
    HtmlRowListSlice(s, 0, i);
    HtmlRowListSlice(s, i + 1, |s|);
    assert rows[..i] == rows[0..i] && s[..i] == s[0..i];
    assert rows[i + 1..] == rows[i + 1..|s|] && s[i + 1..] == s[i + 1..|s|];
    RowsOfList(s);
    RowsOfList(s[..i]);
    RowsOfList(s[i + 1..]);
    ConcatSplit(rows, i, HtmlRows(Some(s[..i])), HtmlRow(s[i]), HtmlRows(Some(s[i + 1..])));
  }

  /** The rows of a score dict are the concatenation of its entries' rows, empty or not. */
  lemma RowsOfList(s: Scores)
    ensures HtmlRows(Some(s)) == Concat(HtmlRowList(s))
  {
    if s == [] {
      assert HtmlRowList(s) == [];
    }
  }

  /** `x if x is not None else 'N/A'`. */
  function AverageText(a: Option<string>): string
  {
    if a.None? then "N/A" else a.value
  }

  /** `format_grades_table(name, old, new)`: a two-column comparison table of one subject. */
  function FormatGradesTable(name: string, previous: Option<Record>, current: Record): string
  {
    var oldScores := if previous.Some? then Some(previous.value.scores) else None;
    var oldAverage := if previous.Some? then previous.value.average else Some("N/A");
    Concat(TablePieces(name, oldScores, oldAverage, current))
  }

  /** The pieces of the `format_grades_table` template, in order. */
  function TablePieces(name: string, oldScores: Option<Scores>, oldAverage: Option<string>, current: Record): seq<string>
  {
    [TablePrefix, Heading(name), TableTop, RowsCell(oldScores), CellBreak, RowsCell(Some(current.scores)),
     AverageRowOpen, PreviousAverageLine(AverageText(oldAverage)), AverageBreak,
     CurrentAverageLine(AverageText(current.average)), TableEnd]
  }

  function Heading(name: string): string { "<h3 style=\"margin-bottom:2px;\">" + name + "</h3>" }
  function RowsCell(scores: Option<Scores>): string { "<td valign=\"top\"><table>" + HtmlRows(scores) + "</table></td>" }
  function PreviousAverageLine(text: string): string { "Previous Average: <b>" + text + "</b>" }
  function CurrentAverageLine(text: string): string { "Current Average: <b>" + text + "</b>" }
  const TablePrefix: string := "\n    "
  const TableTop: string :=
    "\n    <table border=\"1\" cellpadding=\"0\" cellspacing=\"0\" style=\"border-collapse:collapse;margin-bottom:10px;\">"
    + "\n      <tr><th style=\"padding:4px 8px;background:#f0f0f0;\">Previous Grades</th>"
    + "<th style=\"padding:4px 8px;background:#f0f0f0;\">Current Grades</th></tr>"
    + "\n      <tr>\n        "
  const CellBreak: string := "\n        "
  const AverageRowOpen: string := "\n      </tr>\n      <tr>" + CellOpen
  const AverageBreak: string := "</td>" + CellOpen
  const TableEnd: string := "</td></tr>\n    </table>\n    "

  /**
   * A subject's table shows its name, the old and the new score rows (none when
   * there is no old record), and `N/A` for an average that is missing or null.
   */
  lemma FormatGradesTableShows(name: string, previous: Option<Record>, current: Record)
    ensures var html := FormatGradesTable(name, previous, current);
      && Contains(html, Heading(name))
      && Contains(html, RowsCell(if previous.Some? then Some(previous.value.scores) else None))
      && Contains(html, RowsCell(Some(current.scores)))
      && Contains(html, PreviousAverageLine(
           if previous.None? || previous.value.average.None? then "N/A" else previous.value.average.value))
      && Contains(html, CurrentAverageLine(if current.average.None? then "N/A" else current.average.value))
  {
    var oldScores := if previous.Some? then Some(previous.value.scores) else None;
    var oldAverage := if previous.Some? then previous.value.average else Some("N/A");
    var parts := TablePieces(name, oldScores, oldAverage, current);
    assert FormatGradesTable(name, previous, current) == Concat(parts);
    OddPiecesShown(parts);
  }

  /** The concatenation of eleven pieces contains each odd-numbered piece. */
  lemma OddPiecesShown(parts: seq<string>)
    requires |parts| == 11
    ensures Contains(Concat(parts), parts[1]) && Contains(Concat(parts), parts[3]) && Contains(Concat(parts), parts[5])
    ensures Contains(Concat(parts), parts[7]) && Contains(Concat(parts), parts[9])
  {
    ContainsEachPiece(parts, 1);
    ContainsEachPiece(parts, 3);
    ContainsEachPiece(parts, 5);
    ContainsEachPiece(parts, 7);
    ContainsEachPiece(parts, 9);
  }

  // ---------------------------------------------------------------------------
  // The report

  /** First line of the plain-text body. */
  const PlainHeader: string := "The following grades have changed:\n"
  /** Start of the HTML body (the greeting carries its emoji as the source file's mis-decoded characters). */
  const Greeting: string := "<html><body><h3>Hello! \U{F0}\U{178}\U{2DC}\U{192} The following grades have changed:</h3><hr>"
  const HtmlEnd: string := "</body></html>"

  /** Python `str(v)` of an optional text: `None` prints as "None". */
  function Str(v: Option<string>): string
  {
    if v.None? then "None" else v.value
  }

  /**
   * The plain-text block of one change; `render` stands for Python's `str` of a
   * score dict.
   */
  function PlainBlock(c: Change, render: Scores -> string): string
  {
    "\nSubject: " + c.name
    + "\nPrevious grades: " + (if c.previous.Some? then render(c.previous.value.scores) else "N/A")
    + "\nCurrent grades:    " + render(c.current.scores)
    + "\nPrevious average: " + (if c.previous.Some? then Str(c.previous.value.average) else "N/A")
    + "\nCurrent average:    " + Str(c.current.average) + "\n"
  }

  /** The plain-text blocks of a list of changes, in order. */
  function PlainBlocks(cs: seq<Change>, render: Scores -> string): (blocks: seq<string>)
    ensures |blocks| == |cs| && forall i :: 0 <= i < |cs| ==> blocks[i] == PlainBlock(cs[i], render)
  {
    seq(|cs|, i requires 0 <= i < |cs| => PlainBlock(cs[i], render))
  }

  /** The HTML tables of a list of changes, in order. */
  function HtmlTables(cs: seq<Change>): (tables: seq<string>)
    ensures |tables| == |cs|
    ensures forall i :: 0 <= i < |cs| ==> tables[i] == FormatGradesTable(cs[i].name, cs[i].previous, cs[i].current)
  {
    seq(|cs|, i requires 0 <= i < |cs| => FormatGradesTable(cs[i].name, cs[i].previous, cs[i].current))
  }

  /** The message handed to the mail transport. */
  datatype Email = Email(subject: string, body: string, html: string)

  /**
   * The loop of `notify_grade_difference`: append, change by change, the
   * plain-text block to the plain body and the HTML table to the HTML body.
   */
  method AppendBlocks(body0: string, blocks: seq<string>, html0: string, tables: seq<string>)
    returns (body: string, html: string)
    requires |blocks| == |tables|
    ensures body == body0 + Concat(blocks)
    ensures html == html0 + Concat(tables)
  {
    body, html := body0, html0;
    for i := 0 to |blocks|
      invariant body == body0 + Concat(blocks[..i])
      invariant html == html0 + Concat(tables[..i])
    {
      ConcatSnoc(blocks, i);
      ConcatSnoc(tables, i);
      AppendAssociates(body0, Concat(blocks[..i]), blocks[i]);
      AppendAssociates(html0, Concat(tables[..i]), tables[i]);
      body := body + blocks[i];
      html := html + tables[i];
    }
    assert blocks[..|blocks|] == blocks;
    assert tables[..|tables|] == tables;
  }

  /**
   * `notify_grade_difference`: nothing when no subject changed; otherwise the
   * subject line and both bodies, accumulated one change at a time.
   */
  method NotifyGradeDifference(olds: seq<Record>, news: seq<Record>, render: Scores -> string)
    returns (email: Option<Email>)
    ensures email.None? <==> GradeChanges(olds, news) == []
    ensures email.Some? ==> var cs := GradeChanges(olds, news);
      && email.value.subject == (if |cs| == 1 then "Grade update: " + cs[0].name
                                 else "Grade updates: " + Join(ChangeNames(cs), ", "))
      && email.value.body == PlainHeader + Concat(PlainBlocks(cs, render))
      && email.value.html == Greeting + Concat(HtmlTables(cs)) + HtmlEnd
  {
    var changes := GradeChanges(olds, news);
    if changes == [] {
      return None;
    }
    var subject: string;
    if |changes| == 1 {
      subject := "Grade update: " + changes[0].name;
    } else {
      subject := "Grade updates: " + Join(ChangeNames(changes), ", ");
    }
    var body, html := AppendBlocks(PlainHeader, PlainBlocks(changes, render), Greeting, HtmlTables(changes));
    html := html + HtmlEnd;
    email := Some(Email(subject, body, html));
  }

  /** The blocks of a slice of the changes are that slice of the blocks. */
  lemma PlainBlocksSlice(cs: seq<Change>, render: Scores -> string, lo: nat, hi: nat)
    requires lo <= hi <= |cs|
    ensures PlainBlocks(cs, render)[lo..hi] == PlainBlocks(cs[lo..hi], render)
  {
    var a, b := PlainBlocks(cs, render)[lo..hi], PlainBlocks(cs[lo..hi], render);
    forall k | 0 <= k < hi - lo
      ensures a[k] == b[k]
    {
      assert cs[lo..hi][k] == cs[lo + k];
    }
  }

  /** The tables of a slice of the changes are that slice of the tables. */
  lemma HtmlTablesSlice(cs: seq<Change>, lo: nat, hi: nat)
    requires lo <= hi <= |cs|
    ensures HtmlTables(cs)[lo..hi] == HtmlTables(cs[lo..hi])
  {
    var a, b := HtmlTables(cs)[lo..hi], HtmlTables(cs[lo..hi]);
    forall k | 0 <= k < hi - lo
      ensures a[k] == b[k]
    {
      assert cs[lo..hi][k] == cs[lo + k];
    }
  }

  /** The `i`-th change's plain-text block sits in the body in change order. */
  lemma PlainBlockAt(cs: seq<Change>, render: Scores -> string, i: nat)
    requires i < |cs|
    ensures Concat(PlainBlocks(cs, render))
      == Concat(PlainBlocks(cs[..i], render)) + PlainBlock(cs[i], render) + Concat(PlainBlocks(cs[i + 1..], render))
  {
    var blocks := PlainBlocks(cs, render);
    PlainBlocksSlice(cs, render, 0, i);
    PlainBlocksSlice(cs, render, i + 1, |cs|);
    assert blocks[..i] == blocks[0..i] && cs[..i] == cs[0..i];
    assert blocks[i + 1..] == blocks[i + 1..|cs|] && cs[i + 1..] == cs[i + 1..|cs|];
    ConcatSplit(blocks, i, Concat(PlainBlocks(cs[..i], render)), PlainBlock(cs[i], render),
      Concat(PlainBlocks(cs[i + 1..], render)));
  }

  /** The `i`-th change's table sits in the HTML body in change order. */
  lemma HtmlTableAt(cs: seq<Change>, i: nat)
    requires i < |cs|
    ensures Concat(HtmlTables(cs))
      == Concat(HtmlTables(cs[..i])) + FormatGradesTable(cs[i].name, cs[i].previous, cs[i].current)
         + Concat(HtmlTables(cs[i + 1..]))
  {
    var tables := HtmlTables(cs);
    HtmlTablesSlice(cs, 0, i);
    HtmlTablesSlice(cs, i + 1, |cs|);
    assert tables[..i] == tables[0..i] && cs[..i] == cs[0..i];
    assert tables[i + 1..] == tables[i + 1..|cs|] && cs[i + 1..] == cs[i + 1..|cs|];
    ConcatSplit(tables, i, Concat(HtmlTables(cs[..i])), FormatGradesTable(cs[i].name, cs[i].previous, cs[i].current),
      Concat(HtmlTables(cs[i + 1..])));
  }

}
