# FEI grades monitoring — a Dafny model of its core

The monitor logs into the FEI student portal, reads the current-semester
grades page, compares the grades with the ones stored in a key-value table
keyed by subject name, writes the subjects whose record changed and e-mails a
report of the changes. This project models the three pieces of that pipeline
that hold its logic and proves what they promise:

- **Extraction** (`scraper.dfy`, module `Scraper`): from the parsed grades page
  to a list of subject records `{nome, notas, media}`. The page is given as
  datatypes holding exactly what the extractor's HTML queries return (the
  header blocks, the first `h4` text of each, the next content block, its
  panels, each panel's title anchor text and table rows as stripped cell texts).
  `ExtractTableData` keeps the source's two loops over the rows; `ExtractGrades`
  its loop over the panels.
- **Change detection and the report** (`notifier.dfy`, module `Notifier`):
  `_get_grade_changes` as `GradeChanges`, the HTML rows and tables, and
  `notify_grade_difference` as a method that returns the e-mail it would hand to
  the mail transport (subject, plain-text body, HTML body), or nothing.
- **The grades table** (`store.dfy`, module `Store`): the table is a class
  `GradeTable` whose field `items: map<string, Record>` is the table's content;
  `StoreChangedGrades` updates it in place, one `put_item` per changed record.

Shared pieces: `text.dfy` (the Python string operations used: `in`, `strip`,
`split`, `join`, `replace`, concatenation), `dicts.dfy` (a Python dict as an
insertion-ordered list of key/value pairs, with `d[k] = v`, `d.get(k)`, dict
comprehensions and order-insensitive dict equality), `grades.dfy` (the subject
record, Python `==`/`!=` on records, and `{g['nome']: g for g in ...}`),
`wrappers.dfy` (`Option`, `Result`).

Python dicts keep insertion order, and that order shows in the report (score
rows are rendered in dict order) and in which change is reported first, so the
model keeps it: `Dict<K, V> = seq<(K, V)>`. Equality of two score dicts, as used
by `!=` on records, ignores order (`Dicts.Equal`). The functions `Select`,
`GradeChanges`, `Writes`, `StoreChanges`, `ApplyWrites`, `TableScores`,
`AverageOf`, `PanelRecords`, `Extraction` and `FormatGradesTable` are the
reference definitions; the methods are proved against them and the lemmas
below state what they mean.

## Model

| member | source | states |
|---|---|---|
| Text.ContainsPiece | src/scraper.py:122 | Python `sub in s` (`sub` occurs at some position of `s`) holds for every piece a text is built from |
| Text.Strip | src/scraper.py:108-109 | `str.strip()`: the result is the contiguous slice of the text with only whitespace before and after it, starts and ends with a non-whitespace character, is empty exactly when the text is all whitespace, and keeps every non-whitespace character |
| Text.Split | src/scraper.py:108 | `str.split("-")`: at least one piece, the first is the text before the first separator, two or more pieces exactly when the separator occurs, no piece holds the separator |
| Text.SplitSecond | src/scraper.py:108-109 | when the separator occurs, there are at least two pieces and the second is the text between the first separator and the next one |
| Text.JoinSplit | src/scraper.py:108 | joining the pieces of a split with the separator gives back the text |
| Text.SplitJoin | src/scraper.py:108 | splitting the join of separator-free pieces gives back the pieces |
| Text.ReplaceChar | src/scraper.py:121 | `replace(",", ".")`: same length, every comma replaced, every other character kept, no comma left |
| Text.ConcatAt | src/notifier.py:43-45 | `''.join(parts)`: each piece sits between the join of the pieces before it and the join of those after it |
| Dicts.Get | src/notifier.py:71 | `d.get(k)`: None exactly when `k` is not a key, otherwise a value stored under `k` |
| Dicts.Put | src/scraper.py:125 | `d[k] = v`: a new key is appended, an existing key keeps its position, `k` now maps to `v` and every other key keeps its value |
| Dicts.FromPairs | src/notifier.py:68 | a dict comprehension yields a dict without repeated keys |
| Dicts.FromPairsKeys | src/notifier.py:68-69 | the keys of a dict comprehension are the generated keys in order of first appearance |
| Dicts.FromPairsGet | src/notifier.py:68-69 | the value of a key in a dict comprehension is the last value generated for it |
| Dicts.FromDistinctPairs | src/notifier.py:69 | without repeated keys the comprehension keeps every pair, in order |
| Dicts.EqualIff | src/notifier.py:73 | two dicts are equal exactly when every key looks up the same in both |
| Dicts.ReorderedEqual | src/notifier.py:73 | two dicts holding the same pairs in a different order are equal |
| Grades.ByNameGet | src/notifier.py:68 | `{g['nome']: g ...}.get(n)` is None exactly when no record is named `n`, otherwise the last record named `n` |
| Grades.ByNameKeys | src/notifier.py:68 | the names of that dict are the record names in order of first appearance |
| Grades.SameUpToScoreOrder | src/notifier.py:73 | two records that differ only in the order of their scores are not `!=` |
| Scraper.Normalize | src/scraper.py:121 | a cell value is None exactly when the cell is empty, otherwise the cell with every comma turned into a dot (non-empty, comma-free) |
| Scraper.ScoreAssignments | src/scraper.py:116-125 | every score assignment of the first pass comes from a row with two cells or more, a non-empty label and no average marker, and every such row's label is assigned |
| Scraper.TableScores | src/scraper.py:113-132 | the score dict has no repeated, empty or average-marker label, only null or normalized values, and holds the label of every score row |
| Scraper.TableScoresKeys | src/scraper.py:124-132 | score labels appear in order of their first row; each comes from a score row |
| Scraper.TableScoresValue | src/scraper.py:125 | a repeated label takes the value of its last row |
| Scraper.FirstPassStep | src/scraper.py:116-125 | one more row extends the first pass: a score row puts its normalized value under its label, an average row sets the average to its normalized value, any other row changes neither |
| Scraper.AverageOf | src/scraper.py:114-123 | the average is null or normalized, null when no row carries an average marker, otherwise the value of such a row |
| Scraper.AverageOfLastRow | src/scraper.py:122-123 | with several average rows, the last one's value is the average |
| Scraper.ExtractTableData | src/scraper.py:111-133 | the two row loops build exactly `TableScores` and `AverageOf` of the rows (the second pass adds nothing the first missed), well-formed, and empty for a table without rows |
| Scraper.SubjectName | src/scraper.py:103-109 | None exactly when there is no anchor or its text has no `-`; a name never contains `-` |
| Scraper.SubjectNameBetweenDashes | src/scraper.py:108-109 | the name is the stripped text between the first `-` of the stripped anchor text and the next `-` |
| Scraper.PanelRecord | src/scraper.py:69-82 | a panel yields a record exactly when it has a title whose subject name exists and is non-empty; the record's name has no `-` and its scores and average are well-formed |
| Scraper.PanelWithoutRows | src/scraper.py:76-82 | a named panel without a table (or without `tbody`) still yields a record, with no scores and no average |
| Scraper.PanelRecords | src/scraper.py:68-82 | no more records than panels, every record name non-empty and without `-` |
| Scraper.PanelRecordsAppend | src/scraper.py:68-82 | panels contribute in panel order and independently of each other |
| Scraper.FindGradesHeader | src/scraper.py:95-101 | None exactly when no header block's `h4` contains the grades heading, otherwise the first one that does |
| Scraper.Extraction | src/scraper.py:52-84 | fails with header-not-found, content-block-not-found or no-panels exactly in those situations, checked in that order on the first matching header; otherwise the records of that block's panels |
| Scraper.ExtractGrades | src/scraper.py:52-84 | the panel loop returns `Extraction(doc)`, every record with a non-empty name and well-formed scores and average |
| Notifier.SubsequenceDistinct | src/notifier.py:70-72 | a subsequence of a list without repetitions has none and only its elements |
| Notifier.SelectSound | src/notifier.py:70-74 | every change comes from a new entry whose record differs from the old record under its name, which it carries |
| Notifier.SelectComplete | src/notifier.py:70-74 | every new entry whose record differs from the old one is reported |
| Notifier.SelectOrder | src/notifier.py:70-72 | reported names follow the order of the entries |
| Notifier.GradeChangesReported | src/notifier.py:66-74 | a name is reported exactly when it has a new record and that record differs from the old one (or there is none); names only in the old list are never reported |
| Notifier.GradeChangesEntry | src/notifier.py:71 | each change carries the (last) old and the (last) new record of its name |
| Notifier.NewSubjectReported | src/notifier.py:71-73 | a subject absent from the old list is reported with no previous record |
| Notifier.GradeChangesOrder | src/notifier.py:68-72 | reported names are distinct and follow the order in which names first appear in the new list |
| Notifier.IdenticalSnapshots | src/notifier.py:73 | comparing a snapshot with itself reports nothing |
| Notifier.HtmlRows | src/notifier.py:40-42 | no rows for a missing or empty score dict |
| Notifier.HtmlRowsAt | src/notifier.py:43-45 | one `<tr>` per score entry in dict order, showing the label and the score or `-` for a null score |
| Notifier.FormatGradesTableShows | src/notifier.py:48-64 | the table shows the subject name, the old rows (none without an old record), the new rows, and each average or `N/A` when it is missing or null |
| Notifier.NotifyGradeDifference | src/notifier.py:76-96 | no e-mail exactly when nothing changed; otherwise the subject names the one changed subject or lists all, comma-separated, and the bodies are the header plus the blocks and the greeting plus the tables plus the closing tags |
| Notifier.AppendBlocks | src/notifier.py:90-94 | the loop leaves the plain body as its start followed by every block in order, and the HTML body as its start followed by every table in order |
| Notifier.PlainBlockAt | src/notifier.py:92-93 | each change's block sits in the plain body in change order |
| Notifier.HtmlTableAt | src/notifier.py:92-94 | each change's table sits in the HTML body in change order |
| Store.GradeTable.GetAllGrades | src/db.py:25-30 | returns every stored item exactly once |
| Store.GradeTable.GetGradeByName | src/db.py:32-37 | returns the item stored under the name, or nothing when there is none |
| Store.GradeTable.StoreChangedGrades | src/db.py:39-55 | returns `StoreChanges(news, olds)` and leaves the table as those writes, applied in order, make it; items stay keyed by their name |
| Store.WritesStep | src/db.py:45-54 | one more new record appends a write, pairing it with the old record of its name, exactly when the two differ |
| Store.WritesSound | src/db.py:45-54 | every write pairs a new record with the old record of its name, and the two differ |
| Store.WritesComplete | src/db.py:45-54 | every new record that differs from the old record of its name (or has none) is written, each duplicate compared on its own |
| Store.WritesOrder | src/db.py:45-54 | the writes follow the order of the new list |
| Store.NothingWritten | src/db.py:45-47 | nothing is written when no new record differs from the old one |
| Store.ApplyWritesFrame | src/db.py:48-53 | a name no write touches keeps its item or stays absent |
| Store.ApplyWritesLast | src/db.py:48-53 | a written name holds, in full, the record of the last write to it |
| Store.ApplyWritesKeyed | src/db.py:48-53 | writes keep every item under its own name |
| Store.LastDifferingCopyWins | src/db.py:44-54 | with duplicate names, the last copy that differs from the old record is the one stored |
| Store.ListingReadsBack | src/db.py:25-30 | a listing returned by `get_all_grades` reads the table back |
| Store.ListingByName | src/db.py:44 | indexing a read-back of the table by name finds exactly the stored names, each with a record equal (as Python compares records) to the stored one, and the stored one itself for an exact listing |
| Store.ChangedSubjectStored | src/db.py:45-53 | with unique names, a changed record ends up stored |
| Store.UnchangedSubjectNotWritten | src/db.py:45-47 | with unique names, an unchanged record's subject is not written to |
| Store.StoredAfterRun | src/db.py:44-53 | with unique names and the old list read back from the table (score dicts possibly reordered), afterwards every new record's subject holds a record equal to it |
| Store.StoreIdempotent | src/db.py:44-54 | with unique names and the old list read back from the table, a second run against a fresh read-back of the updated table (score dicts possibly reordered) writes nothing |
| Store.WritesAreSelected | src/db.py:45-54 | the store's loop picks the same records, with the same old records, as the notifier's comprehension over the unindexed list |
| Store.StoreMatchesNotifier | src/db.py:44-54 | with unique new names, the store writes exactly the changes the notifier reports, same names, same order, same old records |

## Left out

- Logging in, fetching pages, the session-expiry check and the HTTP errors of the scraper: network I/O. The page reaches the model already parsed.
- HTML parsing and the `find`/`find_all`/`get_text` queries: the model takes their results as datatypes (`Scraper.Document` and below); `get_text` joining and stripping of text pieces is taken as given.
- Looking up the login form's verification token: only used by the login exchange, which is I/O.
- Sending the e-mail over SMTP and its error handling: `NotifyGradeDifference` returns the message instead.
- Python's `str()` of a score dict in the plain-text body: a parameter `render` of `PlainBlock` and `NotifyGradeDifference`.
- The greeting emoji: kept as the four characters the source file's bytes decode to, with no claim about how a mail client shows them.
- The table connection, `scan` pagination (only the first page of a large table is returned by the source) and the item format of the database client: `GetAllGrades` returns every item.
- `GetAllGrades` enumerates the map with a loop; the order of a scan is left open.
- Record shape: a record is exactly `{nome, notas, media}`, so the item written by `store_changed_grades` equals the new record.
- The scheduled entry point and credential loading in the Lambda handler: not part of this model. Its credential lookup calls `os.environ(...)` instead of indexing it, which raises `TypeError` on every call, so the handler answers 500 whether or not the credentials are set, never the intended 400.
- A failing `put_item`: `StoreChangedGrades` never fails. In the source the exception leaves the loop midway, with the earlier writes already stored and no list returned.
- Logging.
- Store.StoreIdempotent: stated for a new list with unique names whose old list reads the table back, as in the handler's run; with duplicate names a second run can write again, and an old list that does not reflect the table can leave changes unwritten.
- Store.StoreMatchesNotifier: stated for unique new names; with duplicates the store compares each copy while the notifier compares the last one only.
