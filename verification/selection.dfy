/** The upload page: the file upload, the two column checkbox lists, the
    per-column operation selects and the generate button.

    The two JavaScript `Set`s of selected columns are duplicate-free sequences
    in insertion order, because `Array.from` sends them in that order. The
    checkboxes' checked flags are kept separately, so that "a box is ticked
    exactly when its column is selected" is a property of the model rather
    than an assumption. */
module Selection {
  import opened Results
  import opened Collections
  import opened Ops
  import opened Classify

  datatype Side = Agg | Group

  function Other(side: Side): Side {
    match side
    case Agg => Group
    case Group => Agg
  }

  datatype StatusKind = Info | Success | Error

  /** The message line under the upload zone. */
  datatype Status = Status(kind: StatusKind, message: string)

  const BadFileMessage := "Please upload an Excel file (.xlsx or .xls)"
  const UploadedMessage := "File uploaded successfully!"
  const NoColumnsMessage := "No columns found in the file"
  const GeneratedMessage := "File generated successfully!"

  datatype Page = Page(
    shown: bool,                 // column lists, operations and button visible
    columns: seq<string>,        // one checkbox per column in each list
    aggChecked: set<string>,     // ticked boxes of the aggregation list
    groupChecked: set<string>,   // ticked boxes of the grouping list
    agg: seq<string>,            // selectedAggColumns
    group: seq<string>,          // selectedGroupColumns
    ops: map<string, Op>,        // the operation select of each aggregation column
    generateDisabled: bool,
    inFlight: nat,               // generate requests awaiting their response
    currentFile: Option<string>,
    status: Option<Status>,
    tableRendered: bool,         // a pasted table is rendered in `#tableContainer`
    reuploading: nat)            // generate clicks awaiting the re-upload of that table

  /** The page as loaded: nothing uploaded, the sections hidden, no table. */
  const Initial := Page(false, [], {}, {}, [], [], map[], false, 0, None, None, false, 0)

  function Selected(p: Page, side: Side): seq<string> {
    match side
    case Agg => p.agg
    case Group => p.group
  }

  function Checked(p: Page, side: Side): set<string> {
    match side
    case Agg => p.aggChecked
    case Group => p.groupChecked
  }

  /** `!currentFile`: no file name, or the empty one. */
  predicate NoFile(p: Page) {
    p.currentFile.None? || p.currentFile.value == ""
  }

  /** The consistency the page keeps between its parts. */
  predicate Valid(p: Page) {
    && NoDup(p.agg) && NoDup(p.group)
    && Elems(p.agg) <= Elems(p.columns) && Elems(p.group) <= Elems(p.columns)
    && Elems(p.agg) !! Elems(p.group)
    && p.aggChecked == Elems(p.agg) && p.groupChecked == Elems(p.group)
    && p.ops.Keys == Elems(p.agg)
    && (!p.shown ==> p.columns == [])
    && (p.shown && !p.generateDisabled ==> p.agg != [] && p.group != [])
    && (p.shown && p.inFlight == 0 ==> p.generateDisabled == (p.agg == [] || p.group == []))
  }

  lemma InitialValid()
    ensures Valid(Initial)
  {
  }

  // ------------------------------------------------------------ column lists

  /** `displayColumnSelectors`: fresh unticked lists for `columns`, no
      operation selects, and the button disabled. */
  function DisplayColumnSelectors(p: Page, columns: seq<string>): (r: Page)
    ensures Valid(p) ==> Valid(r)
    ensures r.agg == [] && r.group == [] && r.ops == map[] && r.generateDisabled
  {
    p.(shown := true, columns := columns, aggChecked := {}, groupChecked := {},
       agg := [], group := [], ops := map[], generateDisabled := true)
  }

  /** `updateOperationsSection`: one select per aggregation column, each
      rebuilt showing the first operation. */
  function DefaultOps(agg: seq<string>): (r: map<string, Op>)
    ensures r.Keys == Elems(agg)
    ensures forall c :: c in r ==> r[c] == Available[0]
  {
    map c | c in Elems(agg) :: Sum
  }

  /** What the change handler does after it has updated the sets. */
  function Refresh(p: Page): (r: Page)
    ensures r.agg == p.agg && r.group == p.group
    ensures r.aggChecked == p.aggChecked && r.groupChecked == p.groupChecked
    ensures r.ops.Keys == Elems(r.agg)
    ensures r.generateDisabled <==> r.agg == [] || r.group == []
  {
    p.(ops := DefaultOps(p.agg), generateDisabled := p.agg == [] || p.group == [])
  }

  /** The page with the `side` list and the other list both replaced. */
  function Arrange(p: Page, side: Side, mine: seq<string>, mineChecked: set<string>,
                   theirs: seq<string>, theirsChecked: set<string>): (r: Page)
    ensures Selected(r, side) == mine && Checked(r, side) == mineChecked
    ensures Selected(r, Other(side)) == theirs && Checked(r, Other(side)) == theirsChecked
  {
    match side
    case Agg => p.(agg := mine, aggChecked := mineChecked, group := theirs, groupChecked := theirsChecked)
    case Group => p.(group := mine, groupChecked := mineChecked, agg := theirs, aggChecked := theirsChecked)
  }

  /** A click on the checkbox of `col` in the `side` list. The box flips; the
      change handler then selects the column (first unticking and
      deselecting it in the other list) or deselects it, rebuilds the
      operation selects and updates the button. A column without a checkbox
      cannot be clicked. */
  function Toggle(p: Page, side: Side, col: string): (r: Page)
    ensures r.columns == p.columns && r.currentFile == p.currentFile && r.inFlight == p.inFlight
    ensures r.shown == p.shown && r.tableRendered == p.tableRendered && r.reuploading == p.reuploading
  {
    if col !in p.columns then p
    else
      var mine := Selected(p, side);
      var theirs := Selected(p, Other(side));
      if col !in Checked(p, side) then
        Refresh(Arrange(p, side, Insert(mine, col), Checked(p, side) + {col},
                        Remove(theirs, col), Checked(p, Other(side)) - {col}))
      else
        Refresh(Arrange(p, side, Remove(mine, col), Checked(p, side) - {col},
                        theirs, Checked(p, Other(side))))
  }

  lemma OtherOther(side: Side)
    ensures Other(Other(side)) == side && Other(side) != side
  {
  }

  /** The part of `Valid` that concerns one list. */
  predicate SideValid(p: Page, q: Side) {
    && NoDup(Selected(p, q))
    && Elems(Selected(p, q)) <= Elems(p.columns)
    && Checked(p, q) == Elems(Selected(p, q))
  }

  /** `Valid` seen from either list. */
  lemma ValidBySides(p: Page, side: Side)
    ensures Valid(p) <==>
      && SideValid(p, side) && SideValid(p, Other(side))
      && Elems(Selected(p, side)) !! Elems(Selected(p, Other(side)))
      && p.ops.Keys == Elems(p.agg)
      && (!p.shown ==> p.columns == [])
      && (p.shown && !p.generateDisabled ==> p.agg != [] && p.group != [])
      && (p.shown && p.inFlight == 0 ==> p.generateDisabled == (p.agg == [] || p.group == []))
  {
  }

  /** Both lists after a click on a column that has a checkbox. */
  lemma ToggleSides(p: Page, side: Side, col: string)
    requires Valid(p) && col in p.columns
    ensures var r := Toggle(p, side, col);
            var mine := Selected(p, side);
            var theirs := Selected(p, Other(side));
            && (col !in mine ==> Selected(r, side) == Insert(mine, col) && Selected(r, Other(side)) == Remove(theirs, col))
            && (col in mine ==> Selected(r, side) == Remove(mine, col) && Selected(r, Other(side)) == theirs)
            && SideValid(r, side) && SideValid(r, Other(side))
            && Elems(Selected(r, side)) !! Elems(Selected(r, Other(side)))
  {
    ValidBySides(p, side);
    var mine := Selected(p, side);
    var theirs := Selected(p, Other(side));
    if col !in Checked(p, side) {
      var a := Arrange(p, side, Insert(mine, col), Checked(p, side) + {col},
                       Remove(theirs, col), Checked(p, Other(side)) - {col});
      assert Selected(Refresh(a), side) == Selected(a, side) by { match side case Agg => case Group => }
      assert Selected(Refresh(a), Other(side)) == Selected(a, Other(side)) by { match side case Agg => case Group => }
      assert Checked(Refresh(a), side) == Checked(a, side) by { match side case Agg => case Group => }
      assert Checked(Refresh(a), Other(side)) == Checked(a, Other(side)) by { match side case Agg => case Group => }
    } else {
      var a := Arrange(p, side, Remove(mine, col), Checked(p, side) - {col},
                       theirs, Checked(p, Other(side)));
      assert Selected(Refresh(a), side) == Selected(a, side) by { match side case Agg => case Group => }
      assert Selected(Refresh(a), Other(side)) == Selected(a, Other(side)) by { match side case Agg => case Group => }
      assert Checked(Refresh(a), side) == Checked(a, side) by { match side case Agg => case Group => }
      assert Checked(Refresh(a), Other(side)) == Checked(a, Other(side)) by { match side case Agg => case Group => }
    }
  }

  /** Toggling keeps the page consistent. */
  lemma ToggleValid(p: Page, side: Side, col: string)
    requires Valid(p)
    ensures Valid(Toggle(p, side, col))
  {
    if col in p.columns {
      var r := Toggle(p, side, col);
      ToggleSides(p, side, col);
      ValidBySides(r, side);
      assert r.ops.Keys == Elems(r.agg);
      assert r.generateDisabled <==> r.agg == [] || r.group == [];
    }
  }

  /** A click flips its own column's selection and leaves it out of the
      other list; no other column changes. */
  lemma ToggleEffect(p: Page, side: Side, col: string)
    requires Valid(p) && col in p.columns
    ensures col in Selected(Toggle(p, side, col), side) <==> col !in Selected(p, side)
    ensures col !in Selected(Toggle(p, side, col), Other(side))
    ensures forall q: Side, c :: c != col ==>
              (c in Selected(Toggle(p, side, col), q) <==> c in Selected(p, q))
  {
    var r := Toggle(p, side, col);
    ToggleSides(p, side, col);
    OtherOther(side);
    var mine := Selected(p, side);
    var theirs := Selected(p, Other(side));
    assert Elems(Selected(r, Other(side))) == Elems(theirs) - {col};
    assert col !in mine ==> Elems(Selected(r, side)) == Elems(mine) + {col};
    assert col in mine ==> Elems(Selected(r, side)) == Elems(mine) - {col};
    forall q: Side, c | c != col ensures c in Selected(r, q) <==> c in Selected(p, q) {
      assert c in Selected(r, q) <==> c in Elems(Selected(r, q));
      assert c in Selected(p, q) <==> c in Elems(Selected(p, q));
      assert q == side || q == Other(side);
    }
  }

  /** A newly ticked column goes to the end of its list; unticking keeps the
      order of the rest. */
  lemma ToggleOrder(p: Page, side: Side, col: string)
    requires Valid(p) && col in p.columns
    ensures col !in Selected(p, side) ==> Selected(Toggle(p, side, col), side) == Selected(p, side) + [col]
    ensures col in Selected(p, side) ==> Selected(Toggle(p, side, col), side) == Remove(Selected(p, side), col)
  {
    ToggleSides(p, side, col);
  }

  /** Every click resets every operation select to the first operation, so
      choices made before the click are lost. */
  lemma ToggleResetsOps(p: Page, side: Side, col: string)
    requires col in p.columns
    ensures forall c :: c in Toggle(p, side, col).ops ==> Toggle(p, side, col).ops[c] == Sum
  {
  }

  /** Choosing an operation in the select of `col`. */
  function ChooseOp(p: Page, col: string, op: Op): (r: Page)
    ensures Valid(p) ==> Valid(r)
    ensures col in p.ops ==> col in r.ops && r.ops[col] == op
    ensures forall c :: c in p.ops && c != col ==> c in r.ops && r.ops[c] == p.ops[c]
    ensures r == p.(ops := r.ops) && r.ops.Keys == p.ops.Keys
  {
    if col in p.ops then p.(ops := p.ops[col := op]) else p
  }

  // ------------------------------------------------------------ upload

  /** What the upload endpoint answered: a failure (its message), or the
      stored file name and the column names, either possibly missing. */
  datatype UploadReply = UploadFailed(message: string) | Uploaded(filename: Option<string>, columns: Option<seq<string>>)

  /** `handleFileUpload`: a name that is not an Excel name is refused before
      anything is sent; otherwise the reply decides. */
  function Upload(p: Page, fileName: string, reply: UploadReply): (r: Page)
    ensures Valid(p) ==> Valid(r)
  {
    if !IsExcelFileName(fileName) then p.(status := Some(Status(Error, BadFileMessage)))
    else match reply
      case UploadFailed(message) => p.(status := Some(Status(Error, "Error: " + message)))
      case Uploaded(filename, columns) =>
        if columns.Some? && |columns.value| > 0 then
          DisplayColumnSelectors(p.(currentFile := filename, status := Some(Status(Success, UploadedMessage))), columns.value)
        else
          p.(status := Some(Status(Error, "Error: " + NoColumnsMessage)))
  }

  /** A refused or failed upload leaves the selection exactly as it was. */
  lemma UploadRefusedKeepsSelection(p: Page, fileName: string, reply: UploadReply)
    requires !IsExcelFileName(fileName) || reply.UploadFailed? || reply.columns.None? || reply.columns.value == []
    ensures Upload(p, fileName, reply) == p.(status := Upload(p, fileName, reply).status)
    ensures Upload(p, fileName, reply).status.Some? && Upload(p, fileName, reply).status.value.kind == Error
  {
  }

  /** An accepted upload with columns starts a fresh selection over them. */
  lemma UploadAcceptedResets(p: Page, fileName: string, filename: Option<string>, columns: seq<string>)
    requires IsExcelFileName(fileName) && columns != []
    ensures var r := Upload(p, fileName, Uploaded(filename, Some(columns)));
            r.columns == columns && r.agg == [] && r.group == [] && r.currentFile == filename
              && r.generateDisabled && r.shown
  {
  }

  // ------------------------------------------------------------ pasted data

  /** The name under which a pasted table is stored and aggregated. */
  const PastedFile := "pasted-data.xlsx"
  const TableProcessedMessage := "Table data processed successfully!"
  const DataProcessedMessage := "Data processed successfully!"

  /** What the table endpoint answered: a failure (its message), or a body
      whose column list may be missing. */
  datatype TableReply = TableFailed(message: string) | TableProcessed(columns: Option<seq<string>>)

  /** `handleDataUpload` up to its first `await`: the pasted table becomes
      the current file, `displayData` sends it to the upload endpoint, and
      the status reports success, before either of its two requests has
      been answered. The selection and the rendered table are not touched.
      The process button runs exactly this. */
  function PasteStart(p: Page): (r: Page)
    ensures Valid(p) ==> Valid(r)
    ensures r.currentFile == Some(PastedFile) && r.status == Some(Status(Success, TableProcessedMessage))
    ensures r.agg == p.agg && r.group == p.group && r.ops == p.ops && r.columns == p.columns
    ensures r.generateDisabled == p.generateDisabled && r.tableRendered == p.tableRendered
  {
    p.(currentFile := Some(PastedFile), status := Some(Status(Success, TableProcessedMessage)))
  }

  /** A paste that yields a table: `displayPastedData` renders it into the
      page and calls `handleDataUpload`, and the paste handler then calls
      `handleDataUpload` a second time, so two uploads and two table
      requests are out. */
  function PasteEvent(p: Page): (r: Page)
    ensures Valid(p) ==> Valid(r)
    ensures r.tableRendered && r.currentFile == Some(PastedFile)
    ensures r.agg == p.agg && r.group == p.group && r.generateDisabled == p.generateDisabled
  {
    PasteStart(PasteStart(p.(tableRendered := true)))
  }

  /** A selection made for an uploaded file survives the paste. After a
      paste event the next click sends it for the pasted table, once the
      rendered table has been uploaded again. After the process button the
      click reads the table back from the page, so it sends nothing unless
      an earlier paste left one rendered. */
  lemma PasteRetargetsSelection(p: Page)
    requires Valid(p) && p.shown && !p.generateDisabled
    ensures ClickGenerate(PasteEvent(p)).request.Some?
    ensures var q := ClickGenerate(PasteEvent(p)).request.value;
            && q.url == "/aggregate/" + PastedFile && q.reupload
            && q.payload.aggColumns == p.agg && q.payload.groupColumns == p.group
    ensures ClickGenerate(PasteStart(p)).request.Some? <==> p.tableRendered
  {
    ClickRequest(PasteEvent(p));
    ClickRequest(PasteStart(p));
  }

  /** The answer to `displayData`'s upload of the pasted table: columns make
      a fresh selection under the returned file name; a reply without
      columns changes nothing; a failure only reports. */
  function DisplayDataReply(p: Page, reply: UploadReply): (r: Page)
    ensures Valid(p) ==> Valid(r)
  {
    match reply
    case UploadFailed(message) => p.(status := Some(Status(Error, "Error: " + message)))
    case Uploaded(filename, columns) =>
      if columns.Some? && |columns.value| > 0 then
        DisplayColumnSelectors(p.(currentFile := filename), columns.value).(status := Some(Status(Success, DataProcessedMessage)))
      else p
  }

  /** Only a reply with columns touches the selection, and it starts a
      fresh, empty, disabled one over them. */
  lemma DisplayDataReplyEffect(p: Page, reply: UploadReply)
    ensures var r := DisplayDataReply(p, reply);
            if reply.Uploaded? && reply.columns.Some? && reply.columns.value != [] then
              && r.columns == reply.columns.value && r.currentFile == reply.filename
              && r.agg == [] && r.group == [] && r.generateDisabled && r.shown
            else r == p.(status := r.status)
  {
  }

  /** The answer to the `/process-table` request, as written: the column list
      is passed on unchecked. A missing one makes `displayColumnSelectors`
      clear both selections, the lists and the selects and show the
      sections, then throw on `undefined.forEach` before the button is
      updated; the handler reports the exception's `message`. */
  function ProcessTableReplyAsWritten(p: Page, reply: TableReply, message: string): (r: Page)
    ensures reply.TableProcessed? ==> r.shown && r.agg == [] && r.group == []
    ensures reply.TableProcessed? && reply.columns.None? ==> r.columns == [] && r.generateDisabled == p.generateDisabled
  {
    match reply
    case TableFailed(failure) => p.(status := Some(Status(Error, "Error: " + failure)))
    case TableProcessed(columns) =>
      match columns
      case Some(cs) => DisplayColumnSelectors(p, cs).(status := Some(Status(Success, TableProcessedMessage)))
      case None =>
        p.(shown := true, columns := [], aggChecked := {}, groupChecked := {}, agg := [], group := [],
           ops := map[], status := Some(Status(Error, "Error: " + message)))
  }

  /** As written, a table reply without columns leaves the button enabled over
      empty selections: the next click sends both lists empty for the
      pasted table, both with the corrected click and with the handler as
      written, whose request goes out once the re-upload is answered. */
  lemma PasteWithoutColumnsSendsEmptyLists(p: Page, message: string)
    requires Valid(p) && p.shown && !p.generateDisabled
    ensures var r := ProcessTableReplyAsWritten(PasteEvent(p), TableProcessed(None), message);
            && !Valid(r)
            && ClickGenerate(r).request.Some?
            && ClickGenerate(r).request.value.url == "/aggregate/" + PastedFile
            && ClickGenerate(r).request.value.payload.aggColumns == []
            && ClickGenerate(r).request.value.payload.groupColumns == []
    ensures var r := ProcessTableReplyAsWritten(PasteEvent(p), TableProcessed(None), message);
            var c := ClickGenerateAsWritten(r).page;
            && c.reuploading == r.reuploading + 1
            && ReuploadDoneAsWritten(c, true).request.Some?
            && ReuploadDoneAsWritten(c, true).request.value.url == "/aggregate/" + PastedFile
            && ReuploadDoneAsWritten(c, true).request.value.payload.aggColumns == []
            && ReuploadDoneAsWritten(c, true).request.value.payload.groupColumns == []
  {
    var r := ProcessTableReplyAsWritten(PasteEvent(p), TableProcessed(None), message);
    assert OperationsMap(r.agg, r.ops) == Some(map[]);
  }

  /** The answer to the `/process-table` request with its column list checked
      as `handleFileUpload` checks it: a reply without columns, or with an
      empty list, is an error and leaves the selection alone. */
  function ProcessTableReply(p: Page, reply: TableReply): (r: Page)
    ensures Valid(p) ==> Valid(r)
    ensures if reply.TableProcessed? && reply.columns.Some? && reply.columns.value != [] then
              r.columns == reply.columns.value && r.agg == [] && r.group == [] && r.generateDisabled
            else r == p.(status := r.status) && r.status.Some? && r.status.value.kind == Error
  {
    match reply
    case TableFailed(failure) => p.(status := Some(Status(Error, "Error: " + failure)))
    case TableProcessed(columns) =>
      match columns
      case Some(cs) =>
        if cs != [] then DisplayColumnSelectors(p, cs).(status := Some(Status(Success, TableProcessedMessage)))
        else p.(status := Some(Status(Error, "Error: " + NoColumnsMessage)))
      case None => p.(status := Some(Status(Error, "Error: " + NoColumnsMessage)))
  }

  /** With the reply checked, one `handleDataUpload` keeps the page
      consistent whichever of its two replies arrives first, so a click
      afterwards sends both lists non-empty. */
  lemma PasteRequestsNeedSelection(p: Page, upload: UploadReply, table: TableReply)
    requires Valid(p)
    ensures var r := ProcessTableReply(DisplayDataReply(PasteStart(p), upload), table);
            ClickGenerate(r).request.Some? ==>
              ClickGenerate(r).request.value.payload.aggColumns != [] &&
              ClickGenerate(r).request.value.payload.groupColumns != []
    ensures var r := DisplayDataReply(ProcessTableReply(PasteStart(p), table), upload);
            ClickGenerate(r).request.Some? ==>
              ClickGenerate(r).request.value.payload.aggColumns != [] &&
              ClickGenerate(r).request.value.payload.groupColumns != []
  {
    ClickRequest(ProcessTableReply(DisplayDataReply(PasteStart(p), upload), table));
    ClickRequest(DisplayDataReply(ProcessTableReply(PasteStart(p), table), upload));
  }

  /** A reply to one of the requests a paste sends. */
  datatype PasteReply = FromUpload(upload: UploadReply) | FromTable(table: TableReply)

  /** The page after `replies` arrive in that order, the table replies
      checked. A paste event has four requests out and the process button
      two, answered in any order; replies of earlier pastes may be among
      them. */
  function Deliver(p: Page, replies: seq<PasteReply>): (r: Page)
    ensures Valid(p) ==> Valid(r)
    ensures r.tableRendered == p.tableRendered && r.inFlight == p.inFlight
    decreases |replies|
  {
    if replies == [] then p
    else
      var q := match replies[0]
        case FromUpload(upload) => DisplayDataReply(p, upload)
        case FromTable(table) => ProcessTableReply(p, table);
      Deliver(q, replies[1..])
  }

  /** With the table replies checked, however the replies to a paste event
      or to the process button interleave, a click afterwards sends both
      lists non-empty. Every other transition keeps `Valid` too, so this
      holds whatever else happens between the replies. */
  lemma PasteRepliesNeedSelection(p: Page, replies: seq<PasteReply>)
    requires Valid(p)
    ensures var r := Deliver(PasteEvent(p), replies);
            ClickGenerate(r).request.Some? ==>
              ClickGenerate(r).request.value.payload.aggColumns != [] &&
              ClickGenerate(r).request.value.payload.groupColumns != []
    ensures var r := Deliver(PasteStart(p), replies);
            ClickGenerate(r).request.Some? ==>
              ClickGenerate(r).request.value.payload.aggColumns != [] &&
              ClickGenerate(r).request.value.payload.groupColumns != []
  {
    ClickRequest(Deliver(PasteEvent(p), replies));
    ClickRequest(Deliver(PasteStart(p), replies));
  }

  // ------------------------------------------------------------ generate

  /** The JSON body sent to the aggregation endpoint. */
  datatype Payload = Payload(aggColumns: seq<string>, groupColumns: seq<string>, operations: map<string, string>)

  /** A request to the aggregation endpoint; `reupload` when it follows an
      upload of the rendered pasted table. */
  datatype Request = Request(url: string, payload: Payload, reupload: bool)

  /** `operationsMap`: the value of each aggregation column's select. A
      column without a select makes the handler throw, so no map. */
  function OperationsMap(agg: seq<string>, ops: map<string, Op>): (r: Option<map<string, string>>)
    ensures r.Some? <==> Elems(agg) <= ops.Keys
    ensures r.Some? ==> r.value.Keys == Elems(agg)
    ensures r.Some? ==> forall c :: c in r.value ==> FromName(r.value[c]) == Some(ops[c])
  {
    if Elems(agg) <= ops.Keys then
      var m := map c | c in Elems(agg) :: Name(ops[c]);
      assert forall c :: c in m ==> FromName(m[c]) == Some(ops[c]) by {
        forall c | c in m ensures FromName(m[c]) == Some(ops[c]) {
          FromNameName(ops[c]);
        }
      }
      Some(m)
    else None
  }

  /** The page after a click on the generate button, and the request it
      sends, if any. */
  datatype Click = Click(page: Page, request: Option<Request>)

  /** The handler from the payload on: the selection as it is now goes to
      `file`, and the button is disabled until the response arrives. */
  function Send(p: Page, file: string, reupload: bool): (r: Click)
    ensures r.request.Some? <==> Elems(p.agg) <= p.ops.Keys
    ensures r.request.Some? ==>
              && r.page == p.(generateDisabled := true, inFlight := p.inFlight + 1)
              && r.request.value.url == "/aggregate/" + file && r.request.value.reupload == reupload
              && r.request.value.payload.aggColumns == p.agg && r.request.value.payload.groupColumns == p.group
    ensures r.request.None? ==> r.page == p
  {
    match OperationsMap(p.agg, p.ops)
    case None => Click(p, None)
    case Some(operations) =>
      Click(p.(generateDisabled := true, inFlight := p.inFlight + 1),
            Some(Request("/aggregate/" + file, Payload(p.agg, p.group, operations), reupload)))
  }

  /** A click on the generate button, with the payload built and the button
      disabled before the pasted table's re-upload is awaited. A hidden or
      disabled button takes no click; without a current file the handler
      stops; for the pasted file it throws when no table is rendered, since
      it reads the table back from the page. */
  function ClickGenerate(p: Page): (r: Click)
    ensures r.request.Some? ==> r.page.generateDisabled && r.page.inFlight == p.inFlight + 1
    ensures r.request.None? ==> r.page == p
  {
    if !p.shown || p.generateDisabled || NoFile(p) then Click(p, None)
    else if p.currentFile.value == PastedFile && !p.tableRendered then Click(p, None)
    else Send(p, p.currentFile.value, p.currentFile.value == PastedFile)
  }

  /** On a consistent page a click sends a request exactly when the button
      is shown and enabled, a file is current, and for the pasted file a
      table is rendered; the request names that file, follows a re-upload
      exactly for the pasted file, and carries a non-empty, disjoint pair of
      column lists in selection order with one valid operation name per
      aggregation column. */
  lemma ClickRequest(p: Page)
    requires Valid(p)
    ensures ClickGenerate(p).request.Some? <==>
              p.shown && !p.generateDisabled && !NoFile(p) && (p.currentFile.value == PastedFile ==> p.tableRendered)
    ensures ClickGenerate(p).request.Some? ==>
              var q := ClickGenerate(p).request.value;
              && q.url == "/aggregate/" + p.currentFile.value
              && (q.reupload <==> p.currentFile.value == PastedFile)
              && q.payload.aggColumns == p.agg && q.payload.groupColumns == p.group
              && q.payload.aggColumns != [] && q.payload.groupColumns != []
              && Elems(q.payload.aggColumns) !! Elems(q.payload.groupColumns)
              && NoDup(q.payload.aggColumns) && NoDup(q.payload.groupColumns)
              && q.payload.operations.Keys == Elems(q.payload.aggColumns)
              && forall c :: c in q.payload.operations ==> FromName(q.payload.operations[c]).Some?
  {
  }

  lemma ClickValid(p: Page)
    requires Valid(p)
    ensures Valid(ClickGenerate(p).page)
  {
  }

  /** A click that sends disables the button, so a second click is not
      taken until the response arrives. */
  lemma SecondClickIgnored(p: Page)
    requires ClickGenerate(p).request.Some?
    ensures ClickGenerate(ClickGenerate(p).page).request.None?
  {
  }

  /** The click handler as written. For the pasted file it reads the
      rendered table back (throwing when there is none) and starts its
      re-upload; the selection is read and the button disabled only once the
      re-upload is answered. */
  function ClickGenerateAsWritten(p: Page): (r: Click)
    ensures Valid(p) ==> Valid(r.page)
    ensures r.request.Some? ==> p.currentFile != Some(PastedFile)
  {
    if !p.shown || p.generateDisabled || NoFile(p) then Click(p, None)
    else if p.currentFile.value == PastedFile then
      Click(if p.tableRendered then p.(reuploading := p.reuploading + 1) else p, None)
    else Send(p, p.currentFile.value, false)
  }

  /** A missing file name in a template string: `undefined`. */
  function FileText(file: Option<string>): string {
    match file
    case Some(name) => name
    case None => "undefined"
  }

  /** The rest of the handler as written, once the re-upload is answered
      (`reached`) or its `fetch` rejects. The selection, the file name and
      the button are those of the page now, not at the click; the button is
      not checked again. */
  function ReuploadDoneAsWritten(p: Page, reached: bool): (r: Click)
    requires p.reuploading > 0
    ensures Valid(p) ==> Valid(r.page)
    ensures r.page.reuploading == p.reuploading - 1
    ensures r.request.Some? ==>
              reached && r.request.value.payload.aggColumns == p.agg && r.request.value.payload.groupColumns == p.group
  {
    var q := p.(reuploading := p.reuploading - 1);
    if !reached then Click(q, None)
    else Send(q, FileText(q.currentFile), true)
  }

  /** As written, a click for any other file is the corrected click. For the
      pasted file it sends nothing at once: without a rendered table it
      changes nothing, and with one it starts the re-upload and leaves the
      button enabled. */
  lemma ClickAsWrittenDefers(p: Page)
    ensures p.currentFile != Some(PastedFile) ==> ClickGenerateAsWritten(p) == ClickGenerate(p)
    ensures p.currentFile == Some(PastedFile) ==> ClickGenerateAsWritten(p).request.None?
    ensures p.currentFile == Some(PastedFile) && p.shown && !p.generateDisabled ==>
              && ClickGenerateAsWritten(p).page.reuploading == p.reuploading + (if p.tableRendered then 1 else 0)
              && !ClickGenerateAsWritten(p).page.generateDisabled
  {
  }

  /** As written, a page whose only aggregation column is `col`, with a
      pasted table rendered: clicking and then unticking `col` before the
      re-upload is answered sends an empty list of aggregation columns,
      although the page stays consistent throughout. */
  lemma ReuploadAsWrittenSendsEmptySelection(p: Page, col: string)
    requires Valid(p) && p.shown && !p.generateDisabled && p.tableRendered
    requires p.currentFile == Some(PastedFile) && p.agg == [col]
    ensures ClickGenerateAsWritten(p).page.reuploading == p.reuploading + 1
    ensures var t := Toggle(ClickGenerateAsWritten(p).page, Agg, col);
            && Valid(t) && t.reuploading > 0
            && ReuploadDoneAsWritten(t, true).request.Some?
            && ReuploadDoneAsWritten(t, true).request.value.payload.aggColumns == []
  {
    var c := ClickGenerateAsWritten(p).page;
    assert c == p.(reuploading := p.reuploading + 1);
    assert col in c.columns by {
      assert col in Elems(c.agg);
    }
    ToggleOrder(c, Agg, col);
    ToggleValid(c, Agg, col);
    var t := Toggle(c, Agg, col);
    assert t.agg == [];
    assert OperationsMap(t.agg, t.ops).Some?;
  }

  /** As written, the button stays enabled while the re-upload is out, so
      two clicks send two aggregation requests. */
  lemma DoubleClickAsWrittenSendsTwice(p: Page)
    requires Valid(p) && p.shown && !p.generateDisabled && p.tableRendered
    requires p.currentFile == Some(PastedFile) && p.reuploading == 0
    ensures var c := ClickGenerateAsWritten(ClickGenerateAsWritten(p).page).page;
            && c.reuploading == 2
            && ReuploadDoneAsWritten(c, true).request.Some?
            && ReuploadDoneAsWritten(ReuploadDoneAsWritten(c, true).page, true).request.Some?
  {
    var c := ClickGenerateAsWritten(ClickGenerateAsWritten(p).page).page;
    assert c == p.(reuploading := 2);
    var d := ReuploadDoneAsWritten(c, true).page;
    assert Valid(d) && d.reuploading == 1;
  }

  /** The end of a generate request, `finally` included, as written: the
      button is enabled whatever the selection is by then. */
  function FinishGenerateAsWritten(p: Page, outcome: Outcome<string>): (r: Page)
    requires p.inFlight > 0
    ensures !r.generateDisabled && r.inFlight == p.inFlight - 1
  {
    p.(generateDisabled := false, inFlight := p.inFlight - 1, status := Some(FinishStatus(outcome)))
  }

  /** The end of a generate request, re-deriving the button from the
      selection as every other handler does. */
  function FinishGenerate(p: Page, outcome: Outcome<string>): (r: Page)
    requires p.inFlight > 0
    ensures Valid(p) ==> Valid(r)
    ensures r.shown ==> (r.generateDisabled <==> r.agg == [] || r.group == [])
  {
    p.(generateDisabled := p.agg == [] || p.group == [], inFlight := p.inFlight - 1, status := Some(FinishStatus(outcome)))
  }

  function FinishStatus(outcome: Outcome<string>): Status {
    match outcome
    case Pass => Status(Success, GeneratedMessage)
    case Fail(message) => Status(Error, "Error: " + message)
  }

  /** The selection can change while a request is out. With the `finally` as
      written, a page whose only aggregation column is `col` sends a request;
      unticking `col` while it is out and then letting it finish leaves the
      button enabled, and the next click sends an empty list of aggregation
      columns. */
  lemma FinishAsWrittenSendsEmptySelection(p: Page, col: string, outcome: Outcome<string>)
    requires Valid(p) && p.shown && !NoFile(p) && p.inFlight == 0
    requires p.currentFile.value == PastedFile ==> p.tableRendered
    requires p.agg == [col] && p.group != []
    ensures ClickGenerate(p).request.Some?
    ensures var p2 := FinishGenerateAsWritten(Toggle(ClickGenerate(p).page, Agg, col), outcome);
            && ClickGenerate(p2).request.Some?
            && ClickGenerate(p2).request.value.payload.aggColumns == []
  {
    ClickRequest(p);
    ClickValid(p);
    var c := ClickGenerate(p).page;
    assert col in c.columns by {
      assert col in Elems(c.agg);
    }
    ToggleOrder(c, Agg, col);
    ToggleValid(c, Agg, col);
    var pu := Toggle(c, Agg, col);
    assert pu.agg == [];
    var p2 := FinishGenerateAsWritten(pu, outcome);
    assert p2.agg == [] && p2.shown && !NoFile(p2);
  }

  /** With the corrected `finally` the button is never enabled without a
      selection, so every request carries both column lists non-empty. */
  lemma FinishedRequestsNeedSelection(p: Page, outcome: Outcome<string>)
    requires Valid(p) && p.inFlight > 0
    ensures var r := FinishGenerate(p, outcome);
            ClickGenerate(r).request.Some? ==>
              ClickGenerate(r).request.value.payload.aggColumns != [] &&
              ClickGenerate(r).request.value.payload.groupColumns != []
  {
    ClickRequest(FinishGenerate(p, outcome));
  }
}
