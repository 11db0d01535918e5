/** The clipboard table reader of static/js/paste.js: plain text is cut into
    non-blank lines and tab/comma-separated fields, the first line naming the
    columns; an HTML table contributes the header cells of its first rows and
    the data cells of the others; and a parsed table is rendered back into
    header and body cells. The DOM is abstracted to rows of tagged cells. */
module Paste {
  import opened Results
  import opened Text
  import opened Collections
  import opened Records

  /** The characters of `/[\r\n]+/`. */
  const LineBreaks: set<char> := {'\r', '\n'}

  /** The characters of `/[\t,]/`. */
  const FieldSeparators: set<char> := {'\t', ','}

  /** The text JavaScript produces for `undefined`, both as a property key
      (`obj[undefined]`) and inside a template literal. */
  const Undefined: string := "undefined"

  // ------------------------------------------------------------ plain text

  /** `s.split(/[c1c2...]+/)`: a run of delimiters separates two pieces, so
      empty pieces appear only at the two ends. */
  function SplitRuns(s: string, delims: set<char>): (r: seq<string>)
    ensures |r| >= 1
    decreases |s|
  {
    if s == [] then [""]
    else
      var rest := SplitRuns(s[1..], delims);
      if s[0] in delims then
        (if |s| > 1 && s[1] in delims then rest else [""] + rest)
      else [[s[0]] + rest[0]] + rest[1..]
  }

  /** `row.trim()` is truthy: by `Trim`'s contract, the row is not all
      whitespace. */
  predicate NonBlank(line: string) {
    !AllSpace(Js, line)
  }

  lemma NonBlankTrim(line: string)
    ensures NonBlank(line) <==> Trim(Js, line) != []
  {
  }

  /** `.filter(row => row.trim())`. */
  function KeepNonBlank(lines: seq<string>): (r: seq<string>)
    ensures |r| <= |lines|
    ensures forall k :: 0 <= k < |r| ==> NonBlank(r[k])
  {
    if lines == [] then []
    else (if NonBlank(lines[0]) then [lines[0]] else []) + KeepNonBlank(lines[1..])
  }

  /** The non-blank lines of pasted text. */
  function Lines(content: string): seq<string> {
    KeepNonBlank(SplitRuns(content, LineBreaks))
  }

  /** `line.split(/[\t,]/).map(v => v.trim())`. */
  function Fields(line: string): seq<string> {
    TrimAll(Js, Split(line, FieldSeparators))
  }

  /** `values[i]`, `undefined` past the end. */
  function FieldAt(values: seq<string>, i: nat): Option<string> {
    if i < |values| then Some(values[i]) else None
  }

  /** The parsed table: header names and one record per data row. */
  datatype TableData = TableData(headers: seq<string>, data: seq<Record>)

  /** `headers.forEach((h, i) => rowData[h] = values[i])`: every header is a
      key, and a repeated header holds the value at its last position. */
  function RecordOf(headers: seq<string>, values: seq<string>): (r: Record)
    ensures r.Keys == Elems(headers)
    ensures forall i :: IsLastIndex(headers, i) ==> r[headers[i]] == FieldAt(values, i)
  {
    Assign(headers, seq(|headers|, i requires 0 <= i < |headers| => FieldAt(values, i)))
  }

  /** The table read from non-blank lines: the first names the columns, each
      later one is a record. */
  function TableOfLines(lines: seq<string>): (t: TableData)
    requires |lines| >= 1
    ensures |t.data| == |lines| - 1
  {
    var headers := Fields(lines[0]);
    TableData(headers, RecordsOf(headers, lines[1..]))
  }

  /** `rows.map(row => ...)`: one record per line, in order. */
  function RecordsOf(headers: seq<string>, lines: seq<string>): (r: seq<Record>)
    ensures |r| == |lines|
    ensures forall k :: 0 <= k < |lines| ==> r[k] == RecordOf(headers, Fields(lines[k]))
  {
    if lines == [] then [] else [RecordOf(headers, Fields(lines[0]))] + RecordsOf(headers, lines[1..])
  }

  /** `processTextData`: `null` exactly when the text has no non-blank line. */
  function ProcessTextData(content: string): (r: Option<TableData>)
    ensures r.None? <==> AllSpace(Js, content)
    ensures r.Some? ==> |r.value.data| == |Lines(content)| - 1
  {
    LinesEmptyIff(content);
    var lines := Lines(content);
    if |lines| == 0 then None else Some(TableOfLines(lines))
  }

  /** Trimmed pieces of a split hold no separator. */
  lemma FieldsClean(line: string)
    ensures |Fields(line)| == Count(line, FieldSeparators) + 1
    ensures forall i :: 0 <= i < |Fields(line)| ==>
              IsTrimmed(Js, Fields(line)[i]) && NoneIn(Fields(line)[i], FieldSeparators)
  {
    var pieces := Split(line, FieldSeparators);
    forall i | 0 <= i < |pieces| ensures NoneIn(Fields(line)[i], FieldSeparators) {
      assert forall c :: c in Fields(line)[i] ==> c in pieces[i];
    }
  }

  /** The table read from lines: headers are the trimmed pieces of the first
      line, one record per later line in order, and each record maps every
      header to the trimmed field at that header's (last) position, or to
      `undefined` when the line is too short. */
  lemma TableOfLinesShape(lines: seq<string>)
    requires |lines| >= 1
    ensures |TableOfLines(lines).headers| == Count(lines[0], FieldSeparators) + 1
    ensures forall i :: 0 <= i < |TableOfLines(lines).headers| ==>
              IsTrimmed(Js, TableOfLines(lines).headers[i]) && NoneIn(TableOfLines(lines).headers[i], FieldSeparators)
    ensures forall k :: 0 <= k < |lines| - 1 ==> TableOfLines(lines).data[k].Keys == Elems(TableOfLines(lines).headers)
    ensures forall k, i :: 0 <= k < |lines| - 1 && IsLastIndex(TableOfLines(lines).headers, i) ==>
              TableOfLines(lines).data[k][TableOfLines(lines).headers[i]] == FieldAt(Fields(lines[k + 1]), i)
  {
    FieldsClean(lines[0]);
    TableOfLinesRecords(lines);
  }

  lemma TableOfLinesRecords(lines: seq<string>)
    requires |lines| >= 1
    ensures forall k :: 0 <= k < |lines| - 1 ==>
              TableOfLines(lines).data[k] == RecordOf(Fields(lines[0]), Fields(lines[k + 1]))
  {
    forall k | 0 <= k < |lines| - 1
      ensures TableOfLines(lines).data[k] == RecordOf(Fields(lines[0]), Fields(lines[k + 1]))
    {
      assert lines[1..][k] == lines[k + 1];
    }
  }

  lemma {:induction false} KeepNonBlankCons(x: string, rest: seq<string>)
    ensures KeepNonBlank([x] + rest) == (if NonBlank(x) then [x] else []) + KeepNonBlank(rest)
  {
    assert ([x] + rest)[1..] == rest;
  }

  /** Splitting on runs and splitting on single delimiters agree once blank
      pieces are dropped, and they agree on the first piece. */
  lemma {:induction false} SplitRunsAgree(s: string, delims: set<char>)
    ensures SplitRuns(s, delims)[0] == Split(s, delims)[0]
    ensures KeepNonBlank(SplitRuns(s, delims)) == KeepNonBlank(Split(s, delims))
    decreases |s|
  {
    if s != [] {
      SplitRunsAgree(s[1..], delims);
      if s[0] in delims {
        RunsAgreeAtDelimiter(s, delims);
      } else {
        RunsAgreeAtText(s, delims);
      }
    }
  }

  /** The step of `SplitRunsAgree` past a leading delimiter. */
  lemma RunsAgreeAtDelimiter(s: string, delims: set<char>)
    requires s != [] && s[0] in delims
    requires SplitRuns(s[1..], delims)[0] == Split(s[1..], delims)[0]
    requires KeepNonBlank(SplitRuns(s[1..], delims)) == KeepNonBlank(Split(s[1..], delims))
    ensures SplitRuns(s, delims)[0] == Split(s, delims)[0]
    ensures KeepNonBlank(SplitRuns(s, delims)) == KeepNonBlank(Split(s, delims))
  {
    var r := SplitRuns(s[1..], delims);
    var q := Split(s[1..], delims);
    assert !NonBlank("") by {
      assert Trim(Js, "") == [];
    }
    KeepNonBlankCons("", q);
    if |s| > 1 && s[1] in delims {
      assert s[1..][0] in delims;
    } else {
      KeepNonBlankCons("", r);
    }
  }

  /** The step of `SplitRunsAgree` past a leading character that is not a
      delimiter. */
  lemma RunsAgreeAtText(s: string, delims: set<char>)
    requires s != [] && s[0] !in delims
    requires SplitRuns(s[1..], delims)[0] == Split(s[1..], delims)[0]
    requires KeepNonBlank(SplitRuns(s[1..], delims)) == KeepNonBlank(Split(s[1..], delims))
    ensures SplitRuns(s, delims)[0] == Split(s, delims)[0]
    ensures KeepNonBlank(SplitRuns(s, delims)) == KeepNonBlank(Split(s, delims))
  {
    var r := SplitRuns(s[1..], delims);
    var q := Split(s[1..], delims);
    var x := [s[0]] + r[0];
    assert r == [r[0]] + r[1..];
    assert q == [q[0]] + q[1..];
    KeepNonBlankCons(r[0], r[1..]);
    KeepNonBlankCons(q[0], q[1..]);
    var p := if NonBlank(r[0]) then [r[0]] else [];
    assert p + KeepNonBlank(r[1..]) == p + KeepNonBlank(q[1..]);
    assert KeepNonBlank(r[1..]) == (p + KeepNonBlank(r[1..]))[|p|..];
    assert KeepNonBlank(r[1..]) == KeepNonBlank(q[1..]);
    KeepNonBlankCons(x, r[1..]);
    KeepNonBlankCons(x, q[1..]);
  }

  lemma AllSpaceCons(c: char, s: string)
    ensures AllSpace(Js, [c] + s) <==> IsSpace(Js, c) && AllSpace(Js, s)
  {
    var t := [c] + s;
    if AllSpace(Js, t) {
      assert IsSpace(Js, t[0]);
      forall i | 0 <= i < |s| ensures IsSpace(Js, s[i]) {
        assert t[i + 1] == s[i];
      }
    }
    if IsSpace(Js, c) && AllSpace(Js, s) {
      forall i | 0 <= i < |t| ensures IsSpace(Js, t[i]) {
        if i > 0 {
          assert t[i] == s[i - 1];
        }
      }
    }
  }

  /** When every delimiter is whitespace, splitting leaves no non-blank piece
      exactly when the whole string is whitespace. */
  lemma {:induction false} SplitBlankIff(s: string, delims: set<char>)
    requires forall c :: c in delims ==> IsSpace(Js, c)
    ensures KeepNonBlank(Split(s, delims)) == [] <==> AllSpace(Js, s)
    decreases |s|
  {
    if s == [] {
      assert Trim(Js, "") == [];
      KeepNonBlankCons("", []);
    } else {
      SplitBlankIff(s[1..], delims);
      var q := Split(s[1..], delims);
      AllSpaceCons(s[0], s[1..]);
      assert s == [s[0]] + s[1..];
      assert AllSpace(Js, s) <==> IsSpace(Js, s[0]) && AllSpace(Js, s[1..]);
      assert KeepNonBlank(q) == [] <==> AllSpace(Js, s[1..]);
      if s[0] in delims {
        assert Split(s, delims) == [""] + q;
        assert Trim(Js, "") == [];
        KeepNonBlankCons("", q);
      } else {
        var head := [s[0]] + q[0];
        assert Split(s, delims) == [head] + q[1..];
        assert q == [q[0]] + q[1..];
        KeepNonBlankCons(q[0], q[1..]);
        assert KeepNonBlank(q) == [] <==> AllSpace(Js, q[0]) && KeepNonBlank(q[1..]) == [];
        KeepNonBlankCons(head, q[1..]);
        AllSpaceCons(s[0], q[0]);
        assert KeepNonBlank([head] + q[1..]) == [] <==> AllSpace(Js, head) && KeepNonBlank(q[1..]) == [];
      }
    }
  }

  /** Pasted text yields no lines exactly when it is all whitespace. */
  lemma LinesEmptyIff(content: string)
    ensures Lines(content) == [] <==> AllSpace(Js, content)
  {
    SplitRunsAgree(content, LineBreaks);
    SplitBlankIff(content, LineBreaks);
  }

  // ------------------------------------------------------------ round trip

  /** A field that survives being written as comma-separated text: no
      surrounding whitespace and no separator or line break inside. */
  predicate CleanField(f: string) {
    IsTrimmed(Js, f) && NoneIn(f, FieldSeparators) && NoneIn(f, LineBreaks)
  }

  /** A row that writes as a non-blank line of clean fields. */
  predicate CleanRow(row: seq<string>) {
    && |row| >= 1
    && (forall i :: 0 <= i < |row| ==> CleanField(row[i]))
    && exists i :: 0 <= i < |row| && row[i] != []
  }

  /** Writing a header row and data rows as comma-separated lines. */
  function ToCsv(headers: seq<string>, rows: seq<seq<string>>): string {
    Join(CsvLines([headers] + rows), '\n')
  }

  function CsvLines(rows: seq<seq<string>>): (r: seq<string>)
    ensures |r| == |rows|
    ensures forall k :: 0 <= k < |rows| ==> r[k] == Join(rows[k], ',')
  {
    if rows == [] then [] else [Join(rows[0], ',')] + CsvLines(rows[1..])
  }

  lemma {:induction false} InterleaveAllSpace(fields: seq<string>, seps: string)
    requires |fields| == |seps| + 1
    requires AllSpace(Js, Interleave(fields, seps))
    ensures forall k :: 0 <= k < |fields| ==> AllSpace(Js, fields[k])
    decreases |seps|
  {
    if seps != [] {
      var t := Interleave(fields[1..], seps[1..]);
      var j := fields[0] + [seps[0]] + t;
      assert forall i :: 0 <= i < |fields[0]| ==> j[i] == fields[0][i];
      assert forall i :: 0 <= i < |t| ==> j[|fields[0]| + 1 + i] == t[i];
      InterleaveAllSpace(fields[1..], seps[1..]);
      assert forall k :: 1 <= k < |fields| ==> fields[k] == fields[1..][k - 1];
    }
  }

  /** A clean row written as a line splits back into the same fields. */
  lemma CleanRowFields(row: seq<string>)
    requires CleanRow(row)
    ensures Fields(Join(row, ',')) == row
  {
    SplitJoin(row, ',', FieldSeparators);
    assert AllTrimmed(Js, row) by {
      forall i | 0 <= i < |row| ensures IsTrimmed(Js, row[i]) {
        assert CleanField(row[i]);
      }
    }
    TrimAllTrimmed(Js, row);
  }

  /** A clean row written as a line is non-blank and has no line break. */
  lemma CleanRowLine(row: seq<string>)
    requires CleanRow(row)
    ensures NonBlank(Join(row, ','))
    ensures NoneIn(Join(row, ','), LineBreaks)
  {
    var seps := seq(|row| - 1, _ => ',');
    assert Join(row, ',') == Interleave(row, seps);
    InterleaveChars(row, seps, LineBreaks);
    if !NonBlank(Interleave(row, seps)) {
      InterleaveAllSpace(row, seps);
    }
  }

  /** The non-blank lines are kept as they are. */
  lemma {:induction false} KeepNonBlankAll(lines: seq<string>)
    requires forall k :: 0 <= k < |lines| ==> NonBlank(lines[k])
    ensures KeepNonBlank(lines) == lines
    decreases |lines|
  {
    if lines != [] {
      KeepNonBlankAll(lines[1..]);
      KeepNonBlankCons(lines[0], lines[1..]);
      assert [lines[0]] + lines[1..] == lines;
    }
  }

  /** The lines of a written table are its rows' lines. */
  lemma CsvLinesRead(all: seq<seq<string>>)
    requires |all| >= 1
    requires forall k :: 0 <= k < |all| ==> CleanRow(all[k])
    ensures Lines(Join(CsvLines(all), '\n')) == CsvLines(all)
  {
    var lines := CsvLines(all);
    forall k | 0 <= k < |lines|
      ensures NonBlank(lines[k]) && NoneIn(lines[k], LineBreaks)
    {
      CleanRowLine(all[k]);
    }
    var text := Join(lines, '\n');
    SplitJoin(lines, '\n', LineBreaks);
    SplitRunsAgree(text, LineBreaks);
    KeepNonBlankAll(lines);
  }

  /** Writing a table as comma-separated text and pasting it back gives the
      same headers and one record per row, in order. */
  lemma ProcessCsvRoundTrip(headers: seq<string>, rows: seq<seq<string>>)
    requires CleanRow(headers)
    requires forall k :: 0 <= k < |rows| ==> CleanRow(rows[k])
    ensures ProcessTextData(ToCsv(headers, rows)).Some?
    ensures ProcessTextData(ToCsv(headers, rows)).value.headers == headers
    ensures |ProcessTextData(ToCsv(headers, rows)).value.data| == |rows|
    ensures forall k :: 0 <= k < |rows| ==>
              ProcessTextData(ToCsv(headers, rows)).value.data[k] == RecordOf(headers, rows[k])
  {
    var all := [headers] + rows;
    assert forall k :: 0 <= k < |all| ==> CleanRow(all[k]);
    var lines := CsvLines(all);
    var text := ToCsv(headers, rows);
    CsvLinesRead(all);
    assert Lines(text) == lines;
    TableOfLinesRecords(lines);
    CleanRowFields(headers);
    forall k | 0 <= k < |rows|
      ensures TableOfLines(lines).data[k] == RecordOf(headers, rows[k])
    {
      assert all[k + 1] == rows[k];
      CleanRowFields(rows[k]);
    }
  }

  lemma RepeatedHeaderRecord(h: string, u: string, v: string)
    ensures RecordOf([h, h], [u, v]) == map[h := Some(v)]
  {
    var r := RecordOf([h, h], [u, v]);
    assert IsLastIndex([h, h], 1);
    assert Elems([h, h]) == {h};
    assert r[h] == FieldAt([u, v], 1);
  }

  lemma RepeatedHeaderParsed(h: string, u: string, v: string)
    requires CleanField(h) && CleanField(u) && CleanField(v)
    requires h != [] && u != []
    ensures ProcessTextData(ToCsv([h, h], [[u, v]])).Some?
    ensures ProcessTextData(ToCsv([h, h], [[u, v]])).value.headers == [h, h]
    ensures ProcessTextData(ToCsv([h, h], [[u, v]])).value.data == [map[h := Some(v)]]
  {
    assert CleanRow([h, h]) by {
      assert [h, h][0] != [];
    }
    assert CleanRow([u, v]) by {
      assert [u, v][0] != [];
    }
    ProcessCsvRoundTrip([h, h], [[u, v]]);
    RepeatedHeaderRecord(h, u, v);
  }

  /** With a repeated header name the record keeps the later column's value:
      the text `h,h` over `u,v` reads as one record mapping h to v. */
  lemma RepeatedHeaderKeepsLast(h: string, u: string, v: string)
    requires CleanField(h) && CleanField(u) && CleanField(v)
    requires h != [] && u != []
    ensures ProcessTextData(ToCsv([h, h], [[u, v]])) == Some(TableData([h, h], [map[h := Some(v)]]))
  {
    RepeatedHeaderParsed(h, u, v);
    var p := ProcessTextData(ToCsv([h, h], [[u, v]]));
    assert p.value == TableData([h, h], [map[h := Some(v)]]);
  }

  // ------------------------------------------------------------ HTML tables

  datatype Tag = Th | Td

  /** A table cell: its tag and its text content. */
  datatype Cell = Cell(tag: Tag, text: string)

  /** A table as its row groups: the rows of the table element itself, or of
      each thead, tbody and tfoot, in document order. CSS `tr:first-child`
      picks the first row of EVERY group. */
  datatype HtmlTable = HtmlTable(groups: seq<seq<seq<Cell>>>)

  /** The trimmed text of the cells carrying `tag`, in order. */
  function CellTexts(row: seq<Cell>, tag: Tag): (r: seq<string>)
    ensures |r| <= |row|
    ensures AllTrimmed(Js, r)
  {
    if row == [] then []
    else
      var rest := CellTexts(row[1..], tag);
      if row[0].tag == tag then
        AllTrimmedCons(Js, Trim(Js, row[0].text), rest);
        [Trim(Js, row[0].text)] + rest
      else rest
  }

  /** `tr:first-child th`, trimmed. */
  function HeaderTexts(groups: seq<seq<seq<Cell>>>): seq<string> {
    if groups == [] then []
    else (if groups[0] == [] then [] else CellTexts(groups[0][0], Th)) + HeaderTexts(groups[1..])
  }

  /** `tr:not(:first-child)`. */
  function DataRows(groups: seq<seq<seq<Cell>>>): seq<seq<Cell>> {
    if groups == [] then []
    else (if groups[0] == [] then [] else groups[0][1..]) + DataRows(groups[1..])
  }

  /** `headers[i]` used as a property key. */
  function KeyAt(headers: seq<string>, i: nat): string {
    if i < |headers| then headers[i] else Undefined
  }

  /** The property keys the data cells of a row are stored under, in order. */
  function CellKeys(headers: seq<string>, n: nat): (r: seq<string>)
    ensures |r| == n
    ensures forall i :: 0 <= i < n ==> r[i] == KeyAt(headers, i)
  {
    if n == 0 then [] else CellKeys(headers, n - 1) + [KeyAt(headers, n - 1)]
  }

  /** Every text as a defined value. */
  function Defined(xs: seq<string>): (r: seq<Option<string>>)
    ensures |r| == |xs|
    ensures forall i :: 0 <= i < |xs| ==> r[i] == Some(xs[i])
  {
    if xs == [] then [] else [Some(xs[0])] + Defined(xs[1..])
  }

  /** `row.querySelectorAll('td').forEach((cell, i) => rowData[headers[i]] = ...)`. */
  function CellRecord(headers: seq<string>, row: seq<Cell>): Record {
    var tds := CellTexts(row, Td);
    Assign(CellKeys(headers, |tds|), Defined(tds))
  }

  /** Every data cell lands under a header name, or under "undefined" once the
      headers run out. */
  lemma CellRecordKeys(headers: seq<string>, row: seq<Cell>)
    ensures forall i :: 0 <= i < |CellTexts(row, Td)| ==> KeyAt(headers, i) in CellRecord(headers, row)
    ensures CellRecord(headers, row).Keys <= Elems(headers) + {Undefined}
  {
  }

  /** Every value read from cells is defined and trimmed. */
  lemma CellRecordValues(headers: seq<string>, row: seq<Cell>)
    ensures forall h :: h in CellRecord(headers, row) ==>
              CellRecord(headers, row)[h].Some? && IsTrimmed(Js, CellRecord(headers, row)[h].value)
  {
    var tds := CellTexts(row, Td);
    var keys := CellKeys(headers, |tds|);
    forall h | h in CellRecord(headers, row)
      ensures CellRecord(headers, row)[h].Some? && IsTrimmed(Js, CellRecord(headers, row)[h].value)
    {
      AssignLastWins(keys, Defined(tds), h);
    }
  }

  /** With distinct headers and no more data cells than headers, the i-th
      header holds the i-th data cell's trimmed text. */
  lemma CellRecordAligned(headers: seq<string>, row: seq<Cell>)
    requires |CellTexts(row, Td)| <= |headers| && NoDup(headers)
    ensures forall i :: 0 <= i < |CellTexts(row, Td)| ==>
              headers[i] in CellRecord(headers, row) &&
              CellRecord(headers, row)[headers[i]] == Some(CellTexts(row, Td)[i])
  {
    var tds := CellTexts(row, Td);
    KeysAligned(headers, Defined(tds));
  }

  lemma KeysAligned<V>(headers: seq<string>, vals: seq<V>)
    requires |vals| <= |headers| && NoDup(headers)
    ensures forall i :: 0 <= i < |vals| ==>
              headers[i] in Assign(CellKeys(headers, |vals|), vals) &&
              Assign(CellKeys(headers, |vals|), vals)[headers[i]] == vals[i]
  {
    var keys := CellKeys(headers, |vals|);
    forall i | 0 <= i < |vals|
      ensures headers[i] in Assign(keys, vals) && Assign(keys, vals)[headers[i]] == vals[i]
    {
      forall j | i < j < |keys| ensures keys[j] != keys[i] {
        assert keys[j] == headers[j] && keys[i] == headers[i];
      }
      assert IsLastIndex(keys, i);
    }
  }

  /** Data cells past the last header overwrite one another under
      "undefined", so the last of them survives. */
  lemma CellRecordOverflow(headers: seq<string>, row: seq<Cell>)
    requires |CellTexts(row, Td)| > |headers|
    ensures CellRecord(headers, row)[Undefined] == Some(CellTexts(row, Td)[|CellTexts(row, Td)| - 1])
  {
    var tds := CellTexts(row, Td);
    var keys := CellKeys(headers, |tds|);
    assert IsLastIndex(keys, |tds| - 1);
  }

  /** One record per data row, in order. */
  function CellRecords(headers: seq<string>, rows: seq<seq<Cell>>): (r: seq<Record>)
    ensures |r| == |rows|
    ensures forall k :: 0 <= k < |rows| ==> r[k] == CellRecord(headers, rows[k])
  {
    if rows == [] then [] else [CellRecord(headers, rows[0])] + CellRecords(headers, rows[1..])
  }

  /** `extractTableData`. */
  function ExtractTableData(t: HtmlTable): (r: TableData)
    ensures forall i :: 0 <= i < |r.headers| ==> IsTrimmed(Js, r.headers[i])
    ensures |r.data| == |DataRows(t.groups)|
  {
    var headers := HeaderTexts(t.groups);
    HeaderTextsTrimmed(t.groups);
    TableData(headers, CellRecords(headers, DataRows(t.groups)))
  }

  lemma {:induction false} HeaderTextsTrimmed(groups: seq<seq<seq<Cell>>>)
    ensures forall i :: 0 <= i < |HeaderTexts(groups)| ==> IsTrimmed(Js, HeaderTexts(groups)[i])
    decreases |groups|
  {
    if groups != [] {
      HeaderTextsTrimmed(groups[1..]);
    }
  }

  /** For a table that is one plain list of rows, the first row's header
      cells name the columns and every later row is one record. */
  lemma ExtractSingleGroup(rows: seq<seq<Cell>>)
    requires |rows| >= 1
    ensures ExtractTableData(HtmlTable([rows])).headers == CellTexts(rows[0], Th)
    ensures |ExtractTableData(HtmlTable([rows])).data| == |rows| - 1
    ensures forall k :: 1 <= k < |rows| ==>
              ExtractTableData(HtmlTable([rows])).data[k - 1] == CellRecord(CellTexts(rows[0], Th), rows[k])
  {
    assert [rows][1..] == [];
    assert HeaderTexts([rows]) == CellTexts(rows[0], Th) + [];
    assert DataRows([rows]) == rows[1..] + [];
  }

  /** A table whose first row has no header cells yields no headers, and every
      data cell lands on the key "undefined". */
  lemma ExtractWithoutHeaderCells(rows: seq<seq<Cell>>)
    requires |rows| >= 1
    requires forall i :: 0 <= i < |rows[0]| ==> rows[0][i].tag == Td
    ensures ExtractTableData(HtmlTable([rows])).headers == []
    ensures forall k :: 0 <= k < |rows| - 1 ==> ExtractTableData(HtmlTable([rows])).data[k].Keys <= {Undefined}
  {
    ExtractSingleGroup(rows);
    NoHeaderCells(rows[0]);
  }

  lemma {:induction false} NoHeaderCells(row: seq<Cell>)
    requires forall i :: 0 <= i < |row| ==> row[i].tag == Td
    ensures CellTexts(row, Th) == []
    decreases |row|
  {
    if row != [] {
      NoHeaderCells(row[1..]);
    }
  }

  // ------------------------------------------------------------ rendering

  /** `${row[h]}`: a missing or undefined value prints as "undefined". */
  function Display(rec: Record, h: string): string {
    if h in rec && rec[h].Some? then rec[h].value else Undefined
  }

  /** The header row: one header cell per column name. */
  function HeadRow(headers: seq<string>): (r: seq<Cell>)
    ensures |r| == |headers|
    ensures forall i :: 0 <= i < |headers| ==> r[i] == Cell(Th, headers[i])
  {
    if headers == [] then [] else [Cell(Th, headers[0])] + HeadRow(headers[1..])
  }

  /** One body row: one data cell per column, in header order. */
  function BodyRow(headers: seq<string>, rec: Record): (r: seq<Cell>)
    ensures |r| == |headers|
    ensures forall i :: 0 <= i < |headers| ==> r[i] == Cell(Td, Display(rec, headers[i]))
  {
    if headers == [] then [] else [Cell(Td, Display(rec, headers[0]))] + BodyRow(headers[1..], rec)
  }

  function BodyRows(headers: seq<string>, data: seq<Record>): (r: seq<seq<Cell>>)
    ensures |r| == |data|
    ensures forall k :: 0 <= k < |data| ==> r[k] == BodyRow(headers, data[k])
  {
    if data == [] then [] else [BodyRow(headers, data[0])] + BodyRows(headers, data[1..])
  }

  /** `generateTableHTML`: a thead holding one row of header cells and a tbody
      holding one row per record with one data cell per header. */
  function GenerateTable(t: TableData): (r: HtmlTable)
    ensures |r.groups| == 2 && |r.groups[0]| == 1 && |r.groups[1]| == |t.data|
    ensures |r.groups[0][0]| == |t.headers|
    ensures forall i :: 0 <= i < |t.headers| ==> r.groups[0][0][i] == Cell(Th, t.headers[i])
    ensures forall k :: 0 <= k < |t.data| ==> |r.groups[1][k]| == |t.headers|
    ensures forall k, i :: 0 <= k < |t.data| && 0 <= i < |t.headers| ==>
              r.groups[1][k][i] == Cell(Td, Display(t.data[k], t.headers[i]))
  {
    HtmlTable([[HeadRow(t.headers)], BodyRows(t.headers, t.data)])
  }

  /** The records a rendered table can give back: every header present with
      a defined, trimmed value and no other key. */
  predicate Renderable(t: TableData) {
    && (forall i :: 0 <= i < |t.headers| ==> IsTrimmed(Js, t.headers[i]))
    && forall k :: 0 <= k < |t.data| ==>
         && t.data[k].Keys == Elems(t.headers)
         && forall h :: h in t.data[k] ==> t.data[k][h].Some? && IsTrimmed(Js, t.data[k][h].value)
  }

  lemma {:induction false} CellTextsOfTag(row: seq<Cell>, tag: Tag)
    requires forall i :: 0 <= i < |row| ==> row[i].tag == tag
    ensures |CellTexts(row, tag)| == |row|
    ensures forall i :: 0 <= i < |row| ==> CellTexts(row, tag)[i] == Trim(Js, row[i].text)
    decreases |row|
  {
    if row != [] {
      CellTextsOfTag(row[1..], tag);
      var t := CellTexts(row, tag);
      var rest := CellTexts(row[1..], tag);
      assert t == [Trim(Js, row[0].text)] + rest;
      forall i | 0 <= i < |row| ensures t[i] == Trim(Js, row[i].text) {
        if i > 0 {
          assert t[i] == rest[i - 1];
          assert row[1..][i - 1] == row[i];
        }
      }
    }
  }

  /** The data cells of a rendered body row, trimmed, are the displayed values. */
  lemma BodyRowTexts(headers: seq<string>, rec: Record)
    ensures CellTexts(BodyRow(headers, rec), Td) == DisplayAll(headers, rec)
  {
    CellTextsOfTag(BodyRow(headers, rec), Td);
  }

  /** The values a body row shows, trimmed as `extractTableData` reads them. */
  function DisplayAll(headers: seq<string>, rec: Record): (r: seq<string>)
    ensures |r| == |headers|
    ensures forall i :: 0 <= i < |headers| ==> r[i] == Trim(Js, Display(rec, headers[i]))
  {
    seq(|headers|, i requires 0 <= i < |headers| => Trim(Js, Display(rec, headers[i])))
  }

  /** Assigning every header the record's own value rebuilds the record. */
  lemma AssignReadBack(headers: seq<string>, vals: seq<Option<string>>, rec: Record)
    requires |vals| == |headers| && rec.Keys == Elems(headers)
    requires forall i :: 0 <= i < |headers| ==> headers[i] in rec && vals[i] == rec[headers[i]]
    ensures Assign(headers, vals) == rec
  {
    var got := Assign(headers, vals);
    forall h | h in rec ensures got[h] == rec[h] {
      AssignLastWins(headers, vals, h);
    }
  }

  /** Storing each header's displayed value under that header rebuilds a
      record whose keys are the headers and whose values are trimmed. */
  lemma DisplayedReadBack(headers: seq<string>, rec: Record)
    requires rec.Keys == Elems(headers)
    requires forall h :: h in rec ==> rec[h].Some? && IsTrimmed(Js, rec[h].value)
    ensures Assign(CellKeys(headers, |headers|), Defined(DisplayAll(headers, rec))) == rec
  {
    var tds := DisplayAll(headers, rec);
    var keys := CellKeys(headers, |tds|);
    assert keys == headers;
    var vals := Defined(tds);
    forall i | 0 <= i < |headers| ensures headers[i] in rec && vals[i] == rec[headers[i]] {
      assert headers[i] in Elems(headers);
      TrimTrimmed(Js, rec[headers[i]].value);
    }
    AssignReadBack(headers, vals, rec);
  }

  /** A rendered body row reads back as the record it was rendered from. */
  lemma BodyRowReadBack(headers: seq<string>, rec: Record)
    requires rec.Keys == Elems(headers)
    requires forall h :: h in rec ==> rec[h].Some? && IsTrimmed(Js, rec[h].value)
    ensures CellRecord(headers, BodyRow(headers, rec)) == rec
  {
    BodyRowTexts(headers, rec);
    DisplayedReadBack(headers, rec);
  }

  /** The header row of a rendered table gives back its trimmed headers; the
      first body row, having no header cells, adds none. */
  lemma GeneratedHeaders(t: TableData)
    requires forall i :: 0 <= i < |t.headers| ==> IsTrimmed(Js, t.headers[i])
    ensures HeaderTexts(GenerateTable(t).groups) == t.headers
  {
    var head := HeadRow(t.headers);
    var body := BodyRows(t.headers, t.data);
    assert GenerateTable(t).groups == [[head], body];
    HeaderTextsOfTwo(head, body);
    HeadRowTexts(t.headers);
    if body != [] {
      NoHeaderCells(body[0]);
    }
  }

  /** The header texts of a head group of one row and a body group. */
  lemma HeaderTextsOfTwo(head: seq<Cell>, body: seq<seq<Cell>>)
    ensures HeaderTexts([[head], body]) ==
              CellTexts(head, Th) + (if body == [] then [] else CellTexts(body[0], Th))
  {
    var gs := [[head], body];
    assert gs[1..] == [body] && gs[1..][1..] == [];
    assert HeaderTexts(gs[1..]) == (if body == [] then [] else CellTexts(body[0], Th)) + HeaderTexts([]);
  }

  /** The header row reads back as the (trimmed) headers. */
  lemma HeadRowTexts(headers: seq<string>)
    requires forall i :: 0 <= i < |headers| ==> IsTrimmed(Js, headers[i])
    ensures CellTexts(HeadRow(headers), Th) == headers
  {
    var head := HeadRow(headers);
    CellTextsOfTag(head, Th);
    forall i | 0 <= i < |headers| ensures Trim(Js, headers[i]) == headers[i] {
      TrimTrimmed(Js, headers[i]);
    }
  }

  /** Only the body rows after the first are read as data. */
  lemma GeneratedDataRows(t: TableData)
    ensures DataRows(GenerateTable(t).groups) ==
              if t.data == [] then [] else BodyRows(t.headers, t.data)[1..]
  {
    var head := HeadRow(t.headers);
    var body := BodyRows(t.headers, t.data);
    var gs := [[head], body];
    assert GenerateTable(t).groups == gs;
    assert gs[1..] == [body] && gs[1..][1..] == [];
    var rows := if body == [] then [] else body[1..];
    assert DataRows(gs[1..]) == rows + DataRows([]);
    assert DataRows(gs) == [head][1..] + DataRows(gs[1..]);
  }

  /** Rendering a table and reading it back as HTML recovers the headers but
      not the first record: the first body row is the first child of its
      tbody, so `tr:first-child` makes it a header row (it has no header
      cells) and `tr:not(:first-child)` skips it. */
  lemma ExtractGenerated(t: TableData)
    requires Renderable(t)
    ensures ExtractTableData(GenerateTable(t)).headers == t.headers
    ensures ExtractTableData(GenerateTable(t)).data == if t.data == [] then [] else t.data[1..]
  {
    var g := GenerateTable(t);
    GeneratedHeaders(t);
    GeneratedDataRows(t);
    var rows := DataRows(g.groups);
    var r := ExtractTableData(g);
    assert r.data == CellRecords(t.headers, rows);
    var expected := if t.data == [] then [] else t.data[1..];
    assert |r.data| == |expected|;
    forall k | 0 <= k < |expected| ensures r.data[k] == expected[k] {
      assert rows[k] == BodyRow(t.headers, t.data[k + 1]);
      BodyRowReadBack(t.headers, t.data[k + 1]);
    }
  }

  // ------------------------------------------------------------ clipboard

  /** `processClipboardData`: the first table of the HTML flavour when there
      is one, otherwise the plain-text flavour. `htmlTables` stands for the
      tables the browser parses out of the HTML flavour (none when it is
      empty). */
  function ProcessClipboardData(htmlTables: seq<HtmlTable>, text: string): (r: Option<TableData>)
    ensures r.None? <==> htmlTables == [] && AllSpace(Js, text)
    ensures htmlTables != [] ==> r.Some? && |r.value.data| == |DataRows(htmlTables[0].groups)|
    ensures htmlTables != [] ==>
              && r.value.headers == HeaderTexts(htmlTables[0].groups)
              && forall k :: 0 <= k < |r.value.data| ==>
                   r.value.data[k] == CellRecord(r.value.headers, DataRows(htmlTables[0].groups)[k])
    ensures htmlTables == [] ==> r == ProcessTextData(text)
  {
    if htmlTables != [] then Some(ExtractTableData(htmlTables[0])) else ProcessTextData(text)
  }
}
