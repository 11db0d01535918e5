# Pivot-table front ends, modelled in Dafny

The repository is a small Excel pivot-table tool. An Excel file or a pasted
table is uploaded. The user picks aggregation columns, one operation per
aggregation column, and grouping columns, and the server groups the frame.
This project models the logic of its two front ends and proves properties of
that model:

- **The clipboard reader** (`static/js/paste.js`), in module `Paste`.
  - Plain text is cut into non-blank lines (`split(/[\r\n]+/)` then
    `filter(row => row.trim())`) and each line into trimmed tab- or
    comma-separated fields. The first line gives the headers and each later
    line a record.
  - An HTML table is read as `tr:first-child th` for headers and
    `tr:not(:first-child)` rows of `td` cells for records. The DOM is
    abstracted to row groups of tagged cells.
  - A parsed table is rendered back as header and body cells.
- **The upload page** (`static/js/main.js`).
  - Module `Selection` covers the two checkbox lists as a state machine:
    upload, paste (the paste event, the process button, `handleDataUpload`
    and the replies to its requests), checkbox change, operation choice, the
    generate click (with the re-upload of a pasted table), and the end of the
    generate request.
  - Module `Classify` covers the status badge class and the upload file-name
    test.
- **The interactive command line** (`app/_deprecated_cli_main.py`), in
  module `Cli`.
  - Parsing a typed column selection, with the retry loop of
    `get_column_selection`.
  - Reading one operation per aggregation column.
  - The overlap check, the confirmation prompt and the column check of
    `aggregate_data`.
  - Every input line is an element of a sequence; running out of lines ends
    the session.
- **Agreement between the two front ends**, in module `Agreement`. Any request
  a click sends from a consistent page passes the command line's checks,
  and every operation name it sends is one the command line accepts.

Supporting modules:

- `Text` covers trimming with each language's own whitespace (JavaScript
  `trim` and Python `strip` differ), splitting, joining, ASCII lower-casing,
  substring search, and decimal digit strings and numerals.
- `Collections` covers JavaScript `Set`s as duplicate-free sequences in
  insertion order, and `list(dict.fromkeys(...))`.
- `Records` covers JavaScript objects filled by successive property
  assignment, where the last write wins.
- `Ops` holds the seven operations.
- `Results` holds `Option`, `Outcome` and `Result`.

Some JavaScript details are modelled exactly where they matter:

- `obj[undefined]` stores under the key `"undefined"`.
- `${undefined}` prints `undefined`.
- `tr:first-child` matches the first row of every row group, thead and tbody
  alike.
- A `Set` iterates in insertion order and `Array.from` keeps that order.

## Model

| member | source | states |
|---|---|---|
| Paste.ProcessTextData | static/js/paste.js:53-55 | The result is `null` exactly when the pasted text is all whitespace; otherwise there is one record per non-blank line after the first |
| Paste.NonBlankTrim | static/js/paste.js:54 | A row passes `.filter(row => row.trim())` exactly when its trimmed text is non-empty |
| Paste.LinesEmptyIff | static/js/paste.js:54-55 | Splitting on line-break runs and dropping blank rows leaves nothing exactly when the text is all whitespace |
| Paste.SplitRunsAgree | static/js/paste.js:54 | Splitting on runs of line breaks and splitting on single breaks keep the same non-blank rows, and the same first piece |
| Paste.TableOfLinesShape | static/js/paste.js:57-63 | There is one header per field of the first line, each trimmed and free of tab and comma. Every record has exactly the headers as keys. Each header maps to the trimmed field at its last position in the header row, or to `undefined` when the line is too short |
| Paste.ProcessCsvRoundTrip | static/js/paste.js:53-66 | Clean headers and rows written as comma-separated lines read back as the same headers, with one record per row, in order |
| Paste.RepeatedHeaderKeepsLast | static/js/paste.js:61 | With the header `h` written twice, the record holds only `h`, with the value under its second occurrence |
| Paste.ExtractTableData | static/js/paste.js:32-51 | Headers are trimmed, and there is one record per row that is not the first of its row group |
| Paste.ExtractSingleGroup | static/js/paste.js:37-48 | For a plain list of rows, the first row's header cells are the headers and each later row is one record, in order |
| Paste.ExtractWithoutHeaderCells | static/js/paste.js:37-46 | A table whose first row has only data cells yields no headers, and every cell of every record lands on the key "undefined" |
| Paste.CellRecordAligned | static/js/paste.js:44-45 | With distinct headers and no more data cells than headers, the i-th header holds the i-th cell's trimmed text |
| Paste.CellRecordOverflow | static/js/paste.js:44-45 | Cells beyond the last header overwrite one another under "undefined", and the last one survives |
| Paste.CellRecordKeys | static/js/paste.js:44-45 | Every cell lands under its header, or under "undefined", and no other key appears |
| Paste.CellRecordValues | static/js/paste.js:45 | Every value read from cells is defined and trimmed |
| Paste.GenerateTable | static/js/paste.js:95-108 | There is one header row with one header cell per header, and one body row per record with one data cell per header showing that record's value |
| Paste.BodyRowReadBack | static/js/paste.js:103 | A rendered body row read back with the same headers gives back the record it was rendered from |
| Paste.ExtractGenerated | static/js/paste.js:37-48 | Rendering a table and reading it back keeps the headers but loses the first record: the first tbody row counts as a `tr:first-child` |
| Paste.ProcessClipboardData | static/js/paste.js:16-30 | When the HTML flavour holds a table, the result is read from the first one: its header cells give the headers and each data row its record, whatever the plain text is. Otherwise the result is that of the plain-text reader, `null` exactly when the text is all whitespace |
| Classify.GetStatusClass | static/js/main.js:222-227 | `paid` exactly when the lower-cased text contains "paid"; otherwise `expired` exactly when it contains "expired"; otherwise `pending` |
| Classify.StatusClassIgnoresCase | static/js/main.js:223 | The class of a text is the class of its lower-cased form |
| Classify.UnpaidIsPaid | static/js/main.js:224 | Any text containing "Unpaid" is classed as paid |
| Classify.IsExcelFileName | static/js/main.js:23 | A name is accepted exactly when it is some stem followed by ".xlsx" or ".xls" |
| Classify.ExcelNames | static/js/main.js:23 | Both extensions are accepted after any stem, even an empty one; the upper-case ".XLSX" is refused |
| Ops.FromName | static/js/main.js:14 | A wire name resolves to the operation of that name, and to nothing when no operation has that name |
| Ops.AvailableIsComplete | static/js/main.js:14 | The menu lists every operation exactly once, with sum first |
| Selection.InitialValid | static/js/main.js:16-19 | The page as loaded is consistent |
| Selection.DisplayColumnSelectors | static/js/main.js:53-73 | Both selections and the operation selects are cleared and the button is disabled; consistency is kept |
| Selection.ToggleValid | static/js/main.js:92-110 | A checkbox change keeps the page consistent. The lists stay duplicate-free and disjoint, and a box is ticked exactly when its column is selected. The selects match the aggregation list. The button is disabled exactly when a list is empty |
| Selection.ToggleEffect | static/js/main.js:96-106 | The clicked column's selection flips, it leaves the other list, and every other column stays where it was |
| Selection.ToggleOrder | static/js/main.js:103-105 | A newly ticked column goes to the end of its list; unticking keeps the order of the rest |
| Selection.ToggleResetsOps | static/js/main.js:113-138 | Each change rebuilds every operation select showing the first operation, so earlier choices are lost |
| Selection.ChooseOp | static/js/main.js:123-132 | Choosing an operation sets only that column's select: no select is added or removed, the others keep their operation, and nothing else on the page changes; consistency is kept |
| Selection.Upload | static/js/main.js:22-51 | Every upload outcome keeps the page consistent |
| Selection.UploadRefusedKeepsSelection | static/js/main.js:23-50 | A refused name, a failed request or a reply without columns changes nothing but the error status |
| Selection.UploadAcceptedResets | static/js/main.js:23-44 | An upload whose name ends in `.xlsx` or `.xls` and whose reply has columns records the file name and starts a fresh, empty, disabled selection over the new columns |
| Selection.PasteStart | static/js/paste.js:68-71 | `handleDataUpload` before any reply (all the process button does): `pasted-data.xlsx` becomes the current file and success is reported, while the selection, the button and the rendered table stay as they were; consistency is kept |
| Selection.PasteEvent | static/js/paste.js:9-13 | A paste that yields a table renders it and makes `pasted-data.xlsx` current, leaving the selection and the button alone; consistency is kept |
| Selection.PasteRetargetsSelection | static/js/main.js:265-276 | A selection made for an uploaded file survives a paste: after a paste event the next click sends it to `/aggregate/pasted-data.xlsx`, after a re-upload of the rendered table; after the process button a click sends anything only when an earlier paste left a table rendered |
| Selection.DisplayDataReply | static/js/main.js:151-174 | Every answer to the pasted table's upload keeps the page consistent |
| Selection.DisplayDataReplyEffect | static/js/main.js:163-172 | Only a reply with columns touches the selection, recording the returned file name and starting a fresh, empty, disabled selection; any other reply changes at most the status |
| Selection.ProcessTableReplyAsWritten | static/js/paste.js:79-85 | As written, a table reply clears both selections and shows the lists; without a column list the lists are left empty and the button keeps its previous state |
| Selection.PasteWithoutColumnsSendsEmptyLists | static/js/paste.js:82 | On a page with an enabled selection, a paste event whose table reply has no columns leaves the page inconsistent, and the next click sends both lists empty to `/aggregate/pasted-data.xlsx`, with the corrected click and, once the re-upload is answered, with the handler as written |
| Selection.ProcessTableReply | static/js/paste.js:79-85 | Corrected table reply, checked as an upload reply is: a non-empty column list starts a fresh, disabled selection; a missing or empty list is an error that leaves the selection alone; consistency is kept |
| Selection.PasteRequestsNeedSelection | static/js/paste.js:68-86 | With the corrected reply, whichever of one `handleDataUpload`'s two replies arrives first, a click afterwards sends both lists non-empty |
| Selection.Deliver | static/js/paste.js:68-86 | Any number of replies to the upload and table requests, in any order, with the table replies checked, keep the page consistent and leave the rendered table and the requests in flight alone |
| Selection.PasteRepliesNeedSelection | static/js/paste.js:9-13 | With the corrected reply, however the replies to a paste event or to the process button interleave, a click afterwards sends both lists non-empty |
| Selection.OperationsMap | static/js/main.js:278-282 | The map has exactly the aggregation columns as keys, and each value is the wire name of that column's chosen operation |
| Selection.ClickGenerate | static/js/main.js:258-295 | Corrected for the pasted file (payload built and button disabled before the re-upload is awaited, see Findings). A click that sends a request disables the button and counts one more request in flight; a click that sends nothing changes nothing |
| Selection.ClickRequest | static/js/main.js:258-295 | On a consistent page a request is sent exactly when the button is shown and enabled, a file is current and, for `pasted-data.xlsx`, a table is rendered. It goes to `/aggregate/<file>`, follows a re-upload exactly for the pasted file, and carries the two lists as selected, both non-empty, disjoint and duplicate-free, with one valid operation name per aggregation column |
| Selection.ClickValid | static/js/main.js:290-291 | A click keeps the page consistent |
| Selection.SecondClickIgnored | static/js/main.js:291 | After a click that sends, the button takes no second click |
| Selection.ClickGenerateAsWritten | static/js/main.js:258-295 | As written, a click keeps the page consistent, and only a click for a file other than `pasted-data.xlsx` sends a request at once |
| Selection.ReuploadDoneAsWritten | static/js/main.js:275-295 | As written, once the re-upload is answered the request carries the selection as it is then, not as it was at the click; consistency is kept |
| Selection.ClickAsWrittenDefers | static/js/main.js:265-276 | As written, a click for any other file is the corrected click; for the pasted file it sends nothing at once, throws without a rendered table, and otherwise starts the re-upload with the button still enabled |
| Selection.ReuploadAsWrittenSendsEmptySelection | static/js/main.js:275-291 | As written, unticking the only aggregation column while the re-upload is out sends an empty aggregation list from a consistent page |
| Selection.DoubleClickAsWrittenSendsTwice | static/js/main.js:275-291 | As written, two clicks while the re-upload is out send two aggregation requests |
| Selection.FinishGenerateAsWritten | static/js/main.js:318-319 | As written, the end of a request enables the button whatever the selection is |
| Selection.FinishAsWrittenSendsEmptySelection | static/js/main.js:318-319 | The page has one aggregation column. Unticking it while the request is out and then letting the request finish enables the button, and the next click sends an empty list of aggregation columns |
| Selection.FinishGenerate | static/js/main.js:140-142 | Corrected end of a request: the button is re-derived from the selection, and consistency is kept |
| Selection.FinishedRequestsNeedSelection | static/js/main.js:140-142 | After the corrected end of a request, any request sent carries both lists non-empty |
| Cli.Items | app/_deprecated_cli_main.py:32-33 | A line has at least one item, and every item is trimmed and comma-free |
| Cli.ResolveItem | app/_deprecated_cli_main.py:34-46 | An all-digit item is a 1-based index: the column at that index, or refused. Any other item is accepted exactly when it is a column name, and then stands for itself |
| Cli.MenuNumberSelects | app/_deprecated_cli_main.py:12-13 | The i-th menu line starts with the number i+1, and typing that number alone selects exactly the i-th column |
| Text.NumeralValue | app/_deprecated_cli_main.py:36 | `int()` of the decimal numeral printed for a number gives that number back |
| Cli.ParseSelection | app/_deprecated_cli_main.py:23-58 | A line is refused as empty exactly when it is blank, and the "no valid columns" refusal never happens. An accepted selection is non-empty, has no repeats and is drawn from the columns |
| Cli.ParseSelectionAccepts | app/_deprecated_cli_main.py:25-51 | A line is accepted exactly when it is not blank and every item resolves |
| Cli.ParseItemsOrder | app/_deprecated_cli_main.py:57-58 | The accepted columns are exactly those the items resolve to, each in the order of its first mention |
| Cli.ParseSingleItem | app/_deprecated_cli_main.py:32-58 | A line of one item selects that item's column, or is refused with that item's error |
| Cli.DigitNamesAreIndices | app/_deprecated_cli_main.py:35-40 | A column whose name is all digits cannot be chosen by that name unless the number happens to index it |
| Cli.EmptyItemRefused | app/_deprecated_cli_main.py:32-46 | `a,,b` is refused because of its empty item, unless the empty string is a column |
| Cli.ParseOperation | app/_deprecated_cli_main.py:69-71 | An answer names an operation exactly when its stripped, lower-cased text is that operation's name |
| Cli.ParseOperationLoose | app/_deprecated_cli_main.py:69-71 | Any padding and any letter case of an operation's name is accepted as that operation |
| Cli.NextOp | app/_deprecated_cli_main.py:68-73 | The prompt skips invalid answers and stops at the first valid one. It gets none exactly when no valid answer remains |
| Cli.NextOpSkips | app/_deprecated_cli_main.py:68-73 | The answer a prompt takes is the first valid one: the valid answers are it, followed by the valid answers after those the prompt used |
| Cli.NextOpUsed | app/_deprecated_cli_main.py:68-73 | The answers one prompt uses hold no valid answer but the one it takes |
| Cli.ReadOperations | app/_deprecated_cli_main.py:67-77 | The loop completes exactly when there are at least as many valid answers as columns. Every column then gets an operation named by some consumed answer |
| Cli.ReadOperationsValids | app/_deprecated_cli_main.py:67-73 | The answers the loop uses hold exactly the first `len(columns)` valid answers, in order |
| Cli.ReadOperationsEnds | app/_deprecated_cli_main.py:67-73 | Without columns no answer is read; otherwise the last answer read is a valid one, so the loop stops right after the last column's answer |
| Cli.ReadOperationsPairs | app/_deprecated_cli_main.py:67-73 | The i-th column, at its last prompt, gets the operation of the (i+1)-th valid answer; a column listed twice keeps its later answer |
| Cli.GetAggregationOperations | app/_deprecated_cli_main.py:61-77 | Over the raw input lines: it completes exactly when the lines hold at least one valid answer per column. The lines it reads hold exactly one valid answer per column and end with one, and each column gets the operation typed at its own (last) prompt |
| Cli.CheckOverlap | app/_deprecated_cli_main.py:171-175 | The check passes exactly when no column is on both sides; otherwise it reports exactly the shared columns |
| Cli.ValidateColumns | app/_deprecated_cli_main.py:106-110 | The check passes exactly when every requested column is in the frame; otherwise it reports exactly the missing ones |
| Cli.FirstAccepted | app/_deprecated_cli_main.py:17-58 | The retry loop returns the first accepted line, every earlier line having been refused, or nothing when every line is refused |
| Cli.GetColumnSelection | app/_deprecated_cli_main.py:16-58 | The same retry loop over raw lines: the selection comes from the first accepted line, and it is a valid choice among the columns |
| Cli.Confirm | app/_deprecated_cli_main.py:170-198 | Overlap is reported exactly when a column is on both sides. The aggregation goes ahead exactly when there is no overlap and the answer is "y" |
| Cli.RunSession | app/_deprecated_cli_main.py:146-198 | A session never fails the column check. When it aggregates, both lists are valid, disjoint choices among the columns, with one operation per aggregation column; the aggregation list is the first accepted line, the operations are those typed at their own prompts in the lines after it, the grouping list is the next accepted line, and the line after that answers "y" |
| Agreement.NameParses | app/_deprecated_cli_main.py:62-71 | Every wire name the page sends is accepted as that operation at the command-line prompt |
| Agreement.SelectionPassesChecks | app/_deprecated_cli_main.py:106-110 | Disjoint lists drawn from the columns pass both the overlap check and the column check |
| Agreement.RequestPassesCliChecks | static/js/main.js:284-288 | The payload of any request from a consistent page passes both command-line checks, and its operation names parse |
| Collections.DedupOrder | app/_deprecated_cli_main.py:58 | `list(dict.fromkeys(s))` keeps each element once, in order of first occurrence |
| Records.AssignLastWins | static/js/paste.js:61 | After successive assignments each key holds the value of its last assignment |
| Text.TrimPadded | static/js/paste.js:57 | Trimming removes exactly the surrounding whitespace |
| Text.SplitJoin | static/js/paste.js:59 | Fields without separators, joined with one separator, split back into the same fields |

## Left out

- DOM, events, `fetch`, `async` and timing are left out. Replies and clipboard
  contents are parameters: `UploadReply`, `TableReply`, the parsed
  `htmlTables`, and the outcome of a generate request. A request's start and
  end are separate transitions. A paste event calls `handleDataUpload`
  twice, once through `displayPastedData` (static/js/paste.js:92) and once
  directly (static/js/paste.js:12), so it has two uploads and two table
  requests out; the process button has one of each. `Deliver` takes their
  replies in any number and order. The bodies these requests send (the
  table as JSON) are left out.
- The contents of the generate handler's re-upload of the pasted table
  (static/js/main.js:266-275) are left out: the page records only whether a
  table is rendered (`tableRendered`), and a request records only that it
  follows the re-upload (`Request.reupload`). A table rendered by an earlier
  paste stays in the page, so after the process button the click uploads
  that older table again. The re-upload's HTTP status is ignored, as the
  handler ignores it; a rejected `fetch` is `reached == false`.
- Selection.ReuploadDoneAsWritten: a missing current file name is sent as
  `/aggregate/undefined`. A file name that the upload reply gave as JSON
  `null` would be sent as `/aggregate/null`; the model does not tell the two
  apart.
- Selection.ClickGenerate: for `pasted-data.xlsx` this is the corrected
  handler of the Findings, which reads the selection and disables the button
  at the click. The handler as written is `ClickGenerateAsWritten` followed
  by `ReuploadDoneAsWritten`. For every other file the two coincide
  (`ClickAsWrittenDefers`).
- The HTML that `displayPastedData` writes is left out; only the fact that a
  table is rendered is kept. `renderTable` (static/js/main.js:176-220) has
  no caller and is left out, together with its `typeof value === 'number'`
  and `toLocaleString` cell formatting.
- The exception message of `undefined.forEach` is engine-specific; it is a
  parameter of `ProcessTableReplyAsWritten`.
- The numeric check on cells (`isNaN(row[h])`, static/js/paste.js:103) is
  left out. It only adds a CSS class, and `isNaN` on arbitrary strings is
  floating-point parsing.
- The transient "uploading" info message (static/js/main.js:32) and the
  loading spinner are left out. The status the upload ends with overwrites
  the message.
- Letter case is ASCII-only: `toLowerCase` and `lower()` change only `A` to
  `Z`. Other letters, such as `É`, are left as they are, where both
  languages would lower them.
- Cli.ResolveItem: only the ASCII digits make an item an index. Python's
  `isdigit` also accepts other decimal digits, such as the full-width `３`,
  which `int()` reads as 3, so the program takes `３` as the third column
  where the model looks for a column named `３`. It also accepts digit-like
  characters such as `²` and `①`, for which `int()` raises `ValueError` and
  the program stops. The line breaks inside the f-string replacement fields
  (app/_deprecated_cli_main.py:69-70 and 74-75) need Python 3.12 or later,
  where `int()` also raises `ValueError` for an all-digit item of more than
  4300 digits (the default limit on integer string conversion). Nothing
  catches it, so the program stops, where the model refuses the item as an
  index out of range and asks again.
- HTML markup in cell text and escaping are left out. A cell's text is taken
  to be exactly what was rendered into it.
- The selector `select[data-column="<name>"]` (static/js/main.js:280) is
  left out: a `"` or `\` in a column name can make it invalid or make it
  miss the column's select, and the handler then throws before sending. The
  model finds every aggregation column's select. The checkbox ids
  `agg_<name>` and `group_<name>` are only looked up by `getElementById`
  (static/js/main.js:98) and `label.htmlFor` (static/js/main.js:85), which
  parse nothing; they clash only for duplicate names, below.
- Duplicate column names in one upload are left out. The column list is a
  sequence, but a checkbox click toggles by name.
- Special property keys such as `__proto__` are left out. Every string is an
  ordinary key.
- pandas is left out: reading the Excel file, `groupby(...).agg(...)`,
  saving the output and printing the preview. The session ends with the
  validated request (`Session.Aggregate`).
- `app/main.py` (the server) is not part of this model.
- Prompts, menus and `argparse` are left out. `input()` at end of input
  raises `EOFError`; the model ends the session with `EndOfInput` instead.
- Cli.RunSession: the frame's columns are taken to be strings. pandas allows
  non-string column labels, which the name comparison would treat
  differently.

## Findings

| source | as written | input that shows it | evidently intended | confidence | as-written member | corrected member |
|---|---|---|---|---|---|---|
| static/js/paste.js:82 | `displayColumnSelectors(data.columns)` is called without checking that the reply has a column list | Tick `a` for aggregation and `b` for grouping on an uploaded file, then paste a table and let `/process-table` answer 200 with a body without `columns`: both selections and lists are cleared, `undefined.forEach` throws before the button is updated, the button stays enabled, and the next click sends empty `agg_columns` and `group_columns` to `/aggregate/pasted-data.xlsx`. `app/main.py` defines no `/process-table` route, so with that server the reply is a failure and the path is not reached | The reply is checked as `handleFileUpload` checks its own (static/js/main.js:41-47): a missing or empty column list is an error and the selection is left alone | low, not executed | Selection.PasteWithoutColumnsSendsEmptyLists | Selection.PasteRequestsNeedSelection |
| static/js/main.js:275-291 | For `pasted-data.xlsx` the handler awaits the re-upload of the rendered table before it reads the selection (278-288) and disables the button (291) | Columns `a`, `b`; paste a table, tick `a` for aggregation and `b` for grouping, click Generate, and untick `a` while the re-upload is out: the request carries `agg_columns: []`. Clicking twice instead sends two aggregation requests | The selection is read and the button disabled at the click, as for every other file | medium, not executed | Selection.ReuploadAsWrittenSendsEmptySelection | Selection.ClickRequest |
| static/js/main.js:318-319 | The `finally` block of the generate handler sets `generateBtn.disabled = false` unconditionally | Columns `a`, `b`: tick `a` for aggregation and `b` for grouping, click Generate, untick `a` while the request is out, let it finish, click Generate again; the second request has `agg_columns: []` | The button is re-derived as `updateGenerateButton` does: disabled while either list is empty | medium, not executed | Selection.FinishAsWrittenSendsEmptySelection | Selection.FinishedRequestsNeedSelection |
