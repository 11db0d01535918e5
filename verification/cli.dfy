/** The interactive command-line front end: reading a column selection typed
    as a comma-separated mix of 1-based indices and names, reading one
    operation per aggregation column, and the checks made before the frame is
    grouped. The prompts read from a sequence of input lines; running out of
    lines ends the session. */
module Cli {
  import opened Results
  import opened Text
  import opened Collections
  import opened Ops

  // ------------------------------------------------------------ one selection

  /** Why one item of a selection was refused. */
  datatype Invalid = BadIndex(index: nat) | BadColumn(name: string)

  datatype SelectionError = NoSelection | InvalidSelections(items: seq<Invalid>) | NoValidColumns

  const Comma: set<char> := {','}

  /** The stripped comma-separated items of a stripped line. */
  function Items(raw: string): (r: seq<string>)
    ensures |r| >= 1
    ensures forall k :: 0 <= k < |r| ==> IsTrimmed(Py, r[k]) && NoneIn(r[k], Comma)
  {
    var fields := Split(Trim(Py, raw), Comma);
    var r := TrimAll(Py, fields);
    forall k | 0 <= k < |r| ensures NoneIn(r[k], Comma) {
      TrimNoneIn(Py, fields[k], Comma);
    }
    r
  }

  /** One stripped item: an all-digit item is a 1-based index and nothing
      else; any other item must be a column name. */
  function ResolveItem(columns: seq<string>, item: string): (r: Result<string, Invalid>)
    ensures r.Ok? ==> r.value in columns
    ensures IsDigits(item) ==>
              r == if 1 <= DigitsValue(item) <= |columns| then Ok(columns[DigitsValue(item) - 1])
                   else Err(BadIndex(DigitsValue(item)))
    ensures !IsDigits(item) ==> (r.Ok? <==> item in columns) && (r.Ok? ==> r.value == item)
  {
    if IsDigits(item) then
      var idx := DigitsValue(item);
      if 1 <= idx <= |columns| then Ok(columns[idx - 1]) else Err(BadIndex(idx))
    else if item in columns then Ok(item)
    else Err(BadColumn(item))
  }

  /** `display_columns_menu`: one line per column, numbered from 1. */
  function Menu(columns: seq<string>): seq<string> {
    seq(|columns|, i requires 0 <= i < |columns| => Numeral(i + 1) + ". " + columns[i])
  }

  /** Typing the number a menu line starts with, alone on the line,
      selects that line's column. */
  lemma MenuNumberSelects(columns: seq<string>, i: nat)
    requires i < |columns|
    ensures Menu(columns)[i] == Numeral(i + 1) + ". " + columns[i]
    ensures ResolveItem(columns, Numeral(i + 1)) == Ok(columns[i])
    ensures ParseSelection(columns, Numeral(i + 1)) == Ok([columns[i]])
  {
    MenuLine(columns, i);
    NumberResolves(columns, i);
    NumberSelects(columns, i);
  }

  lemma MenuLine(columns: seq<string>, i: nat)
    requires i < |columns|
    ensures Menu(columns)[i] == Numeral(i + 1) + ". " + columns[i]
  {
  }

  lemma NumberSelects(columns: seq<string>, i: nat)
    requires i < |columns|
    ensures ParseSelection(columns, Numeral(i + 1)) == Ok([columns[i]])
  {
    NumberResolves(columns, i);
    SingleItemSelects(columns, Numeral(i + 1));
  }

  lemma NumberResolves(columns: seq<string>, i: nat)
    requires i < |columns|
    ensures ResolveItem(columns, Numeral(i + 1)) == Ok(columns[i])
  {
    NumeralValue(i + 1);
  }

  /** A line holding one digit string is read as that one item. */
  lemma SingleItemSelects(columns: seq<string>, n: string)
    requires IsDigits(n)
    ensures ParseSelection(columns, n) ==
              match ResolveItem(columns, n)
              case Ok(c) => Ok([c])
              case Err(e) => Err(InvalidSelections([e]))
  {
    DigitItem(n);
    SingleItem(n);
    ParseSelectionItems(columns, n);
    ParseSingleItem(columns, n);
  }

  /** The resolved columns and the refused items, each in input order. */
  datatype Parts = Parts(selected: seq<string>, invalid: seq<Invalid>)

  function Partition(columns: seq<string>, items: seq<string>): (r: Parts)
    ensures r.invalid == [] <==> forall k :: 0 <= k < |items| ==> ResolveItem(columns, items[k]).Ok?
    ensures r.invalid == [] ==> |r.selected| == |items|
    ensures r.invalid == [] ==> forall k :: 0 <= k < |items| ==> r.selected[k] == ResolveItem(columns, items[k]).value
    ensures forall i :: 0 <= i < |r.selected| ==> r.selected[i] in columns
  {
    if items == [] then Parts([], [])
    else
      var rest := Partition(columns, items[1..]);
      assert forall k :: 1 <= k < |items| ==> items[k] == items[1..][k - 1];
      match ResolveItem(columns, items[0])
      case Ok(c) => Parts([c] + rest.selected, rest.invalid)
      case Err(e) => Parts(rest.selected, [e] + rest.invalid)
  }

  /** The items of a non-blank line: any refused item refuses the line;
      otherwise the resolved columns, each kept at its first occurrence. */
  function ParseItems(columns: seq<string>, items: seq<string>): (r: Result<seq<string>, SelectionError>)
    requires |items| >= 1
    ensures r != Err(NoSelection) && r != Err(NoValidColumns)
    ensures r.Ok? <==> forall k :: 0 <= k < |items| ==> ResolveItem(columns, items[k]).Ok?
    ensures r.Ok? ==> r.value != [] && NoDup(r.value) && Elems(r.value) <= Elems(columns)
  {
    var parts := Partition(columns, items);
    if parts.invalid != [] then Err(InvalidSelections(parts.invalid))
    else if parts.selected == [] then Err(NoValidColumns)
    else
      var r := Dedup(parts.selected);
      assert Elems(r) <= Elems(columns) by {
        forall x | x in Elems(r) ensures x in Elems(columns) {
          var i :| 0 <= i < |parts.selected| && parts.selected[i] == x;
        }
      }
      assert r != [] by {
        assert parts.selected[0] in Elems(r);
      }
      Ok(r)
  }

  /** One pass of `get_column_selection`: a blank line is refused, the "no
      valid columns" refusal cannot happen, and an accepted selection is a
      non-empty duplicate-free choice among the columns. */
  function ParseSelection(columns: seq<string>, raw: string): (r: Result<seq<string>, SelectionError>)
    ensures r == Err(NoSelection) <==> AllSpace(Py, raw)
    ensures r != Err(NoValidColumns)
    ensures r.Ok? ==> r.value != [] && NoDup(r.value) && Elems(r.value) <= Elems(columns)
  {
    if Trim(Py, raw) == [] then Err(NoSelection) else ParseItems(columns, Items(raw))
  }

  /** A line is accepted exactly when it is not blank and every item
      resolves. */
  lemma ParseSelectionAccepts(columns: seq<string>, raw: string)
    ensures ParseSelection(columns, raw).Ok? <==>
              !AllSpace(Py, raw) && forall k :: 0 <= k < |Items(raw)| ==> ResolveItem(columns, Items(raw)[k]).Ok?
  {
  }

  /** An accepted selection holds exactly the columns the items resolve to,
      ordered by the first item resolving to each. */
  lemma ParseItemsOrder(columns: seq<string>, items: seq<string>)
    requires |items| >= 1 && ParseItems(columns, items).Ok?
    ensures forall x :: x in ParseItems(columns, items).value <==>
              exists k :: 0 <= k < |items| && ResolveItem(columns, items[k]) == Ok(x)
    ensures forall i :: 0 <= i < |ParseItems(columns, items).value| ==>
              ParseItems(columns, items).value[i] in Partition(columns, items).selected
    ensures forall i, j :: 0 <= i < j < |ParseItems(columns, items).value| ==>
              IndexOf(Partition(columns, items).selected, ParseItems(columns, items).value[i]) <
              IndexOf(Partition(columns, items).selected, ParseItems(columns, items).value[j])
  {
    var sel := Partition(columns, items).selected;
    assert ParseItems(columns, items).value == Dedup(sel);
    DedupOrder(sel);
    ParseItemsMembers(columns, items);
  }

  lemma ParseItemsMembers(columns: seq<string>, items: seq<string>)
    requires |items| >= 1 && ParseItems(columns, items).Ok?
    ensures forall x :: x in ParseItems(columns, items).value <==>
              exists k :: 0 <= k < |items| && ResolveItem(columns, items[k]) == Ok(x)
  {
    var sel := Partition(columns, items).selected;
    var r := ParseItems(columns, items).value;
    assert r == Dedup(sel);
    forall x ensures x in r <==> exists k :: 0 <= k < |items| && ResolveItem(columns, items[k]) == Ok(x) {
      assert x in r <==> x in Elems(sel);
      if x in sel {
        var k :| 0 <= k < |sel| && sel[k] == x;
        assert ResolveItem(columns, items[k]) == Ok(x);
      }
    }
  }

  /** A non-blank line is read item by item. */
  lemma ParseSelectionItems(columns: seq<string>, raw: string)
    requires !AllSpace(Py, raw)
    ensures ParseSelection(columns, raw) == ParseItems(columns, Items(raw))
  {
  }

  /** A single digit item stays itself through stripping and splitting. */
  lemma SingleItem(name: string)
    requires IsTrimmed(Py, name) && name != [] && NoneIn(name, Comma)
    ensures Items(name) == [name]
  {
    TrimTrimmed(Py, name);
    assert Join([name], ',') == name;
    SplitJoin([name], ',', Comma);
  }

  /** A line of one item is accepted exactly when that item resolves, and
      selects just its column. */
  lemma ParseSingleItem(columns: seq<string>, item: string)
    ensures ParseItems(columns, [item]) ==
              match ResolveItem(columns, item)
              case Ok(c) => Ok([c])
              case Err(e) => Err(InvalidSelections([e]))
  {
    assert [item][1..] == [];
    assert Partition(columns, [item][1..]) == Parts([], []);
    match ResolveItem(columns, item)
    case Ok(c) =>
      assert Partition(columns, [item]) == Parts([c], []);
      assert [c][..0] == [];
      assert Dedup([c]) == Insert(Dedup([]), c) == [c];
    case Err(e) =>
      assert Partition(columns, [item]) == Parts([], [e]);
  }

  /** A column whose name is all digits cannot be chosen by name: the item is
      read as an index, which picks another column or none. */
  lemma DigitNamesAreIndices(columns: seq<string>, name: string)
    requires IsDigits(name)
    requires !(1 <= DigitsValue(name) <= |columns| && columns[DigitsValue(name) - 1] == name)
    ensures ParseSelection(columns, name) != Ok([name])
  {
    DigitItem(name);
    SingleItem(name);
    ParseSelectionItems(columns, name);
    ParseSingleItem(columns, name);
    DigitNameResolves(columns, name);
    if ResolveItem(columns, name).Ok? {
      var c := ResolveItem(columns, name).value;
      assert [c][0] != [name][0];
    }
  }

  lemma DigitNameResolves(columns: seq<string>, name: string)
    requires IsDigits(name)
    requires !(1 <= DigitsValue(name) <= |columns| && columns[DigitsValue(name) - 1] == name)
    ensures ResolveItem(columns, name) != Ok(name)
  {
  }

  /** A digit string is one non-blank item. */
  lemma DigitItem(name: string)
    requires IsDigits(name)
    ensures IsTrimmed(Py, name) && NoneIn(name, Comma) && !AllSpace(Py, name)
  {
    assert IsDigit(name[0]) && IsDigit(name[|name| - 1]);
    forall i | 0 <= i < |name| ensures name[i] !in Comma {
      assert IsDigit(name[i]);
    }
  }

  /** An empty item, as between the two commas of `a,,b`, refuses the line
      unless the empty string is itself a column. */
  lemma EmptyItemRefused(columns: seq<string>, a: string, b: string)
    requires "" !in columns
    requires a != [] && b != [] && IsTrimmed(Py, a) && IsTrimmed(Py, b)
    requires NoneIn(a, Comma) && NoneIn(b, Comma)
    ensures ParseSelection(columns, a + ",," + b).Err?
  {
    var raw := a + ",," + b;
    EmptyItemLine(a, b);
    ParseSelectionItems(columns, raw);
    EmptyUnresolved(columns);
    var items := Items(raw);
    assert ResolveItem(columns, items[1]).Err?;
  }

  /** `a,,b` has the items `a`, the empty one and `b`. */
  lemma EmptyItemLine(a: string, b: string)
    requires a != [] && b != [] && IsTrimmed(Py, a) && IsTrimmed(Py, b)
    requires NoneIn(a, Comma) && NoneIn(b, Comma)
    ensures !AllSpace(Py, a + ",," + b)
    ensures |Items(a + ",," + b)| == 3 && Items(a + ",," + b)[1] == ""
  {
    var raw := a + ",," + b;
    var fields := [a, "", b];
    assert Join(fields, ',') == raw by {
      var seps := seq(2, _ => ',');
      assert seps == [',', ','] && seps[1..] == [','] && seps[1..][1..] == [];
      assert fields[1..] == ["", b] && fields[1..][1..] == [b];
      assert Interleave([b], []) == b;
      assert Interleave(["", b], [',']) == "" + [','] + b;
      assert Interleave(fields, seps) == a + [','] + ("" + [','] + b);
      assert a + [','] + ("" + [','] + b) == raw;
    }
    SplitJoin(fields, ',', Comma);
    assert IsTrimmed(Py, raw) by {
      assert raw[0] == a[0] && raw[|raw| - 1] == b[|b| - 1];
    }
    TrimTrimmed(Py, raw);
    assert !AllSpace(Py, raw) by {
      assert raw[0] == a[0];
    }
    assert Items(raw)[1] == Trim(Py, "");
  }

  /** The empty item is not an index, and resolves only as a column name. */
  lemma EmptyUnresolved(columns: seq<string>)
    requires "" !in columns
    ensures ResolveItem(columns, "").Err?
  {
    assert !IsDigits("");
  }

  // ------------------------------------------------------------ operations

  /** `input().strip().lower()` checked against the valid operations. */
  function ParseOperation(raw: string): (r: Option<Op>)
    ensures r.Some? <==> exists op: Op :: Name(op) == Lower(Trim(Py, raw))
    ensures r.Some? ==> Name(r.value) == Lower(Trim(Py, raw))
  {
    FromName(Lower(Trim(Py, raw)))
  }

  /** An operation name is accepted whatever its padding and letter case. */
  lemma ParseOperationLoose(pre: string, s: string, post: string, op: Op)
    requires AllSpace(Py, pre) && AllSpace(Py, post) && Lower(s) == Name(op)
    ensures ParseOperation(pre + s + post) == Some(op)
  {
    var n := Name(op);
    assert n != [] && n[0] != ' ' && n[|n| - 1] != ' ';
    assert IsTrimmed(Py, s) by {
      assert LowerChar(s[0]) == n[0] && LowerChar(s[|s| - 1]) == n[|n| - 1];
    }
    TrimPadded(Py, pre, s, post);
    FromNameName(op);
  }

  /** What each input line reads as at the operation prompt. */
  function Answers(inputs: seq<string>): (r: seq<Option<Op>>)
    ensures |r| == |inputs|
    ensures forall k :: 0 <= k < |inputs| ==> r[k] == ParseOperation(inputs[k])
  {
    seq(|inputs|, k requires 0 <= k < |inputs| => ParseOperation(inputs[k]))
  }

  /** The operations the valid answers name, in order. */
  function Valids(answers: seq<Option<Op>>): seq<Op> {
    if answers == [] then []
    else (if answers[0].Some? then [answers[0].value] else []) + Valids(answers[1..])
  }

  /** Number of answers that name a valid operation. */
  function ValidCount(answers: seq<Option<Op>>): nat {
    |Valids(answers)|
  }

  lemma {:induction false} ValidsAppend(a: seq<Option<Op>>, b: seq<Option<Op>>)
    ensures Valids(a + b) == Valids(a) + Valids(b)
    decreases |a|
  {
    if a == [] {
      assert a + b == b;
    } else {
      var head := if a[0].Some? then [a[0].value] else [];
      assert (a + b)[0] == a[0] && (a + b)[1..] == a[1..] + b;
      ValidsAppend(a[1..], b);
      assert Valids(a + b) == head + (Valids(a[1..]) + Valids(b));
    }
  }

  /** One operation prompt: invalid answers are skipped until a valid one.
      The operation read and the number of answers used. */
  function NextOp(answers: seq<Option<Op>>): (r: Option<(Op, nat)>)
    ensures r.None? <==> ValidCount(answers) == 0
    ensures r.Some? ==> 1 <= r.value.1 <= |answers|
    ensures r.Some? ==> answers[r.value.1 - 1] == Some(r.value.0)
    ensures r.Some? ==> forall j :: 0 <= j < r.value.1 - 1 ==> answers[j].None?
    ensures r.Some? ==> ValidCount(answers) == 1 + ValidCount(answers[r.value.1..])
  {
    if answers == [] then None
    else if answers[0].Some? then Some((answers[0].value, 1))
    else
      var rest := NextOp(answers[1..]);
      if rest.None? then None
      else
        assert answers[1..][rest.value.1..] == answers[rest.value.1 + 1..];
        Some((rest.value.0, rest.value.1 + 1))
  }

  /** The prompt's answer is the first valid one: the valid answers are
      it followed by those after the answers it used. */
  lemma {:induction false} NextOpSkips(answers: seq<Option<Op>>)
    requires NextOp(answers).Some?
    ensures Valids(answers) == [NextOp(answers).value.0] + Valids(answers[NextOp(answers).value.1..])
    decreases |answers|
  {
    if answers[0].None? {
      NextOpSkips(answers[1..]);
      assert answers[1..][NextOp(answers).value.1 - 1..] == answers[NextOp(answers).value.1..];
    }
  }

  /** The answers one prompt uses hold no valid answer but the one it reads. */
  lemma {:induction false} NextOpUsed(answers: seq<Option<Op>>)
    requires NextOp(answers).Some?
    ensures Valids(answers[..NextOp(answers).value.1]) == [NextOp(answers).value.0]
    decreases |answers|
  {
    var n := NextOp(answers).value.1;
    if answers[0].Some? {
      assert answers[..1][1..] == [];
    } else {
      NextOpUsed(answers[1..]);
      assert answers[..n][1..] == answers[1..][..n - 1];
    }
  }

  /** The answers a column keeps when `columns` are prompted in order and
      each prompt takes the next valid answer: every column holds the
      operation read at its last prompt. */
  predicate PairedWith(columns: seq<string>, ops: seq<Op>, m: map<string, Op>)
    requires |columns| <= |ops|
  {
    forall i :: 0 <= i < |columns| && columns[i] !in columns[i + 1..] ==>
      columns[i] in m && m[columns[i]] == ops[i]
  }

  /** The operation loop over the answers: one operation per column in
      order, a repeated column keeping its last answer. The map and the
      number of answers used; none when the answers run out first. */
  function ReadOperations(columns: seq<string>, answers: seq<Option<Op>>): (r: Option<(map<string, Op>, nat)>)
    ensures r.Some? <==> |columns| <= ValidCount(answers)
    ensures r.Some? ==> r.value.0.Keys == Elems(columns) && r.value.1 <= |answers|
    ensures r.Some? ==> forall c :: c in r.value.0 ==> Some(r.value.0[c]) in answers[..r.value.1]
  {
    if columns == [] then Some((map[], 0))
    else
      var next := NextOp(answers);
      if next.None? then None
      else
        var op, n := next.value.0, next.value.1;
        var rest := ReadOperations(columns[1..], answers[n..]);
        if rest.None? then None
        else
          var m, used := rest.value.0, rest.value.1;
          ExtendOperations(columns, answers, op, n, m, used);
          Some((map[columns[0] := op] + m, n + used))
  }

  /** One pass of the operation loop: the first column takes the next
      valid answer and the rest of the columns read the answers after it. */
  lemma ReadOperationsStep(columns: seq<string>, answers: seq<Option<Op>>)
    requires columns != [] && ReadOperations(columns, answers).Some?
    ensures NextOp(answers).Some?
    ensures ReadOperations(columns[1..], answers[NextOp(answers).value.1..]).Some?
    ensures ReadOperations(columns, answers).value.0
         == map[columns[0] := NextOp(answers).value.0]
              + ReadOperations(columns[1..], answers[NextOp(answers).value.1..]).value.0
    ensures ReadOperations(columns, answers).value.1
         == NextOp(answers).value.1 + ReadOperations(columns[1..], answers[NextOp(answers).value.1..]).value.1
  {
  }

  /** The loop takes the first valid answer for each column in turn: the
      answers it uses hold exactly the first `|columns|` valid ones. */
  lemma {:induction false} ReadOperationsValids(columns: seq<string>, answers: seq<Option<Op>>, used: nat)
    requires ReadOperations(columns, answers).Some? && ReadOperations(columns, answers).value.1 == used
    ensures used <= |answers| && Valids(answers[..used]) == Valids(answers)[..|columns|]
    decreases |columns|
  {
    if columns != [] {
      var op, n, rest := ValidsSplit(columns, answers, used);
      ReadOperationsValids(columns[1..], answers[n..], rest);
      ExtendValids(answers, op, n, rest, |columns|);
    } else {
      ValidsNoColumns(answers, used);
    }
  }

  lemma ValidsNoColumns(answers: seq<Option<Op>>, used: nat)
    requires ReadOperations([], answers).Some? && ReadOperations([], answers).value.1 == used
    ensures used == 0 && Valids(answers[..used]) == Valids(answers)[..0]
  {
    assert answers[..0] == [];
  }

  /** The loop uses no answer when there is no column, and otherwise stops
      at the valid answer to the last prompt. */
  lemma {:induction false} ReadOperationsEnds(columns: seq<string>, answers: seq<Option<Op>>)
    requires ReadOperations(columns, answers).Some?
    ensures columns == [] <==> ReadOperations(columns, answers).value.1 == 0
    ensures columns != [] ==> answers[ReadOperations(columns, answers).value.1 - 1].Some?
    decreases |columns|
  {
    if columns != [] {
      ReadOperationsStep(columns, answers);
      var n := NextOp(answers).value.1;
      var used := ReadOperations(columns[1..], answers[n..]).value.1;
      ReadOperationsEnds(columns[1..], answers[n..]);
      if used > 0 {
        assert answers[n..][used - 1] == answers[n + used - 1];
      }
    }
  }

  /** Every column keeps the valid answer to its own last prompt. */
  lemma {:induction false} ReadOperationsPairs(columns: seq<string>, answers: seq<Option<Op>>)
    requires ReadOperations(columns, answers).Some?
    ensures PairedWith(columns, Valids(answers), ReadOperations(columns, answers).value.0)
    decreases |columns|
  {
    if columns != [] {
      ReadOperationsStep(columns, answers);
      var op, n := NextOp(answers).value.0, NextOp(answers).value.1;
      var m := ReadOperations(columns[1..], answers[n..]).value.0;
      ReadOperationsPairs(columns[1..], answers[n..]);
      NextOpSkips(answers);
      ExtendPairing(columns, Valids(answers), Valids(answers[n..]), op, m);
    }
  }

  /** One step of the operation loop: the first column's answer joins the
      map of the rest, read from the answers after it. */
  lemma ExtendOperations(columns: seq<string>, answers: seq<Option<Op>>, op: Op, n: nat,
                         m: map<string, Op>, used: nat)
    requires columns != [] && 1 <= n && n + used <= |answers| && answers[n - 1] == Some(op)
    requires m.Keys == Elems(columns[1..])
    requires forall c :: c in m ==> Some(m[c]) in answers[n..][..used]
    ensures var r := map[columns[0] := op] + m;
            && r.Keys == Elems(columns)
            && forall c :: c in r ==> Some(r[c]) in answers[..n + used]
  {
    assert Elems(columns) == {columns[0]} + Elems(columns[1..]) by {
      assert columns == [columns[0]] + columns[1..];
    }
    var consumed := answers[..n + used];
    assert answers[n..][..used] == consumed[n..];
    assert consumed[n - 1] == Some(op);
  }

  /** One pass of the loop seen through the valid answers: the first
      prompt uses `n` answers holding only `op`, the first valid one, and
      the rest of the loop uses `rest` answers after them. */
  lemma ValidsSplit(columns: seq<string>, answers: seq<Option<Op>>, used: nat) returns (op: Op, n: nat, rest: nat)
    requires columns != [] && ReadOperations(columns, answers).Some?
    requires ReadOperations(columns, answers).value.1 == used
    ensures 1 <= n && used == n + rest && used <= |answers|
    ensures ReadOperations(columns[1..], answers[n..]).Some?
    ensures ReadOperations(columns[1..], answers[n..]).value.1 == rest
    ensures Valids(answers[..n]) == [op] && Valids(answers) == [op] + Valids(answers[n..])
    ensures |columns| - 1 <= |Valids(answers[n..])|
  {
    ReadOperationsStep(columns, answers);
    op, n := NextOp(answers).value.0, NextOp(answers).value.1;
    rest := ReadOperations(columns[1..], answers[n..]).value.1;
    NextOpSkips(answers);
    NextOpUsed(answers);
  }

  /** The answers used by one prompt and then by the rest of the loop are
      the first `count` valid ones. */
  lemma ExtendValids(answers: seq<Option<Op>>, op: Op, n: nat, rest: nat, count: nat)
    requires 1 <= n && n + rest <= |answers| && 1 <= count
    requires Valids(answers[..n]) == [op] && Valids(answers) == [op] + Valids(answers[n..])
    requires count - 1 <= |Valids(answers[n..])|
    requires Valids(answers[n..][..rest]) == Valids(answers[n..])[..count - 1]
    ensures Valids(answers[..n + rest]) == Valids(answers)[..count]
  {
    assert answers[..n + rest] == answers[..n] + answers[n..][..rest];
    ValidsAppend(answers[..n], answers[n..][..rest]);
    TakeCons(op, Valids(answers[n..]), count);
  }

  lemma TakeCons<T>(x: T, s: seq<T>, k: nat)
    requires 1 <= k <= |s| + 1
    ensures ([x] + s)[..k] == [x] + s[..k - 1]
  {
  }

  /** The pairing of the rest of the columns with the answers after the
      first prompt extends to all columns. */
  lemma ExtendPairing(columns: seq<string>, vs: seq<Op>, rest: seq<Op>, op: Op, m: map<string, Op>)
    requires columns != [] && vs == [op] + rest && |columns| <= |vs|
    requires m.Keys == Elems(columns[1..])
    requires PairedWith(columns[1..], rest, m)
    ensures PairedWith(columns, vs, map[columns[0] := op] + m)
  {
    var r := map[columns[0] := op] + m;
    forall i | 0 <= i < |columns| && columns[i] !in columns[i + 1..]
      ensures columns[i] in r && r[columns[i]] == vs[i]
    {
      if i == 0 {
        assert columns[0] !in Elems(columns[1..]);
      } else {
        assert columns[1..][i - 1] == columns[i] && vs[i] == rest[i - 1];
        assert columns[1..][i..] == columns[i + 1..];
      }
    }
  }

  /** `get_aggregation_operations` reading `inputs`: it completes exactly
      when the lines hold at least one valid answer per column; every
      column gets the operation named by the valid answer to its own
      prompt, and the loop stops at the last answer it needs. */
  function GetAggregationOperations(columns: seq<string>, inputs: seq<string>): (r: Option<(map<string, Op>, nat)>)
    ensures r.Some? <==> |columns| <= ValidCount(Answers(inputs))
    ensures r.Some? ==> r.value.0.Keys == Elems(columns) && r.value.1 <= |inputs|
    ensures r.Some? ==> forall c :: c in r.value.0 ==>
              exists k :: 0 <= k < r.value.1 && ParseOperation(inputs[k]) == Some(r.value.0[c])
    ensures r.Some? ==> OperationsAt(columns, inputs, r.value.1, r.value.0)
  {
    var r := ReadOperations(columns, Answers(inputs));
    if r.Some? then
      ReadOperationsLines(columns, inputs, r.value.0, r.value.1);
      r
    else r
  }

  /** `ReadOperations` over the answers, restated over the lines read. */
  lemma ReadOperationsLines(columns: seq<string>, inputs: seq<string>, m: map<string, Op>, used: nat)
    requires ReadOperations(columns, Answers(inputs)).Some?
    requires ReadOperations(columns, Answers(inputs)).value.0 == m
    requires ReadOperations(columns, Answers(inputs)).value.1 == used
    ensures forall c :: c in m ==> exists k :: 0 <= k < used && ParseOperation(inputs[k]) == Some(m[c])
    ensures OperationsAt(columns, inputs, used, m)
  {
    ReadOperationsConsumed(columns, inputs, m, used);
    LinesCount(columns, inputs, used);
    ReadOperationsEnds(columns, Answers(inputs));
    ReadOperationsPairs(columns, Answers(inputs));
  }

  lemma ReadOperationsConsumed(columns: seq<string>, inputs: seq<string>, m: map<string, Op>, used: nat)
    requires ReadOperations(columns, Answers(inputs)).Some?
    requires ReadOperations(columns, Answers(inputs)).value.0 == m
    requires ReadOperations(columns, Answers(inputs)).value.1 == used
    ensures forall c :: c in m ==> exists k :: 0 <= k < used && ParseOperation(inputs[k]) == Some(m[c])
  {
    var answers := Answers(inputs);
    forall c | c in m ensures exists k :: 0 <= k < used && ParseOperation(inputs[k]) == Some(m[c]) {
      var k :| 0 <= k < used && answers[..used][k] == Some(m[c]);
      assert answers[k] == ParseOperation(inputs[k]);
    }
  }

  /** The lines the loop reads hold exactly one valid answer per column. */
  lemma LinesCount(columns: seq<string>, inputs: seq<string>, used: nat)
    requires ReadOperations(columns, Answers(inputs)).Some?
    requires ReadOperations(columns, Answers(inputs)).value.1 == used
    ensures used <= |inputs| && ValidCount(Answers(inputs[..used])) == |columns|
  {
    var answers := Answers(inputs);
    ReadOperationsValids(columns, answers, used);
    AnswersPrefix(inputs, used);
    assert |Valids(answers[..used])| == |columns|;
  }

  lemma AnswersPrefix(inputs: seq<string>, k: nat)
    requires k <= |inputs|
    ensures Answers(inputs[..k]) == Answers(inputs)[..k]
  {
  }

  /** The first `used` lines hold one valid answer per column, the last of
      them last, and each column holds the operation of the valid answer
      to its own (last) prompt. */
  predicate OperationsAt(columns: seq<string>, lines: seq<string>, used: nat, ops: map<string, Op>) {
    && used <= |lines|
    && ops.Keys == Elems(columns)
    && ValidCount(Answers(lines[..used])) == |columns|
    && (columns != [] ==> 1 <= used && Answers(lines)[used - 1].Some?)
    && |columns| <= ValidCount(Answers(lines))
    && PairedWith(columns, Valids(Answers(lines)), ops)
  }

  // ------------------------------------------------------------ checks

  /** The overlap check: refused with the shared columns when any column is
      both aggregated and grouped on. */
  function CheckOverlap(agg: seq<string>, group: seq<string>): (r: Outcome<set<string>>)
    ensures r.Pass? <==> forall c :: c in agg ==> c !in group
    ensures r.Fail? ==> r.error != {} && forall c :: c in r.error <==> c in agg && c in group
  {
    var overlap := Elems(agg) * Elems(group);
    assert forall c :: c in agg && c in group ==> c in overlap;
    if overlap != {} then Fail(overlap) else Pass
  }

  /** The check in `aggregate_data`: refused with exactly the requested
      columns the frame does not have. */
  function ValidateColumns(frameColumns: seq<string>, agg: seq<string>, group: seq<string>): (r: Outcome<set<string>>)
    ensures r.Pass? <==> forall c :: (c in agg || c in group) ==> c in frameColumns
    ensures r.Fail? ==> r.error != {} && forall c :: c in r.error <==> (c in agg || c in group) && c !in frameColumns
  {
    var required := Elems(agg) + Elems(group);
    var all := Elems(frameColumns);
    assert forall c :: c in required <==> c in agg || c in group;
    assert forall c :: c in all <==> c in frameColumns;
    if required <= all then Pass
    else
      var c :| c in required && c !in all;
      assert c in required - all;
      Fail(required - all)
  }

  // ------------------------------------------------------------ session

  /** What each input line reads as at the selection prompt. */
  function Selections(columns: seq<string>, inputs: seq<string>): (r: seq<Result<seq<string>, SelectionError>>)
    ensures |r| == |inputs|
    ensures forall k :: 0 <= k < |inputs| ==> r[k] == ParseSelection(columns, inputs[k])
  {
    seq(|inputs|, k requires 0 <= k < |inputs| => ParseSelection(columns, inputs[k]))
  }

  /** The retry loop: skip refused lines up to the first accepted one. The
      selection and the number of lines used; none when every line is
      refused. */
  method FirstAccepted(parsed: seq<Result<seq<string>, SelectionError>>) returns (r: Option<seq<string>>, used: nat)
    ensures used <= |parsed|
    ensures r.None? ==> used == |parsed| && forall k :: 0 <= k < |parsed| ==> parsed[k].Err?
    ensures r.Some? ==> used >= 1 && parsed[used - 1] == Ok(r.value)
    ensures r.Some? ==> forall k :: 0 <= k < used - 1 ==> parsed[k].Err?
  {
    used := 0;
    while used < |parsed|
      invariant used <= |parsed|
      invariant forall k :: 0 <= k < used ==> parsed[k].Err?
    {
      var p := parsed[used];
      used := used + 1;
      if p.Ok? {
        return Some(p.value), used;
      }
    }
    return None, used;
  }

  /** `get_column_selection` reading `inputs`: the first accepted line
      gives the selection, every earlier line having been refused. */
  method GetColumnSelection(columns: seq<string>, inputs: seq<string>) returns (r: Option<seq<string>>, used: nat)
    ensures used <= |inputs|
    ensures r.None? ==> used == |inputs| && forall k :: 0 <= k < |inputs| ==> ParseSelection(columns, inputs[k]).Err?
    ensures r.Some? ==> SelectedAt(columns, inputs, used, r.value)
    ensures r.Some? ==> Choice(columns, r.value)
  {
    r, used := FirstAccepted(Selections(columns, inputs));
  }

  /** Line `used` of `lines` is the first one the selection prompt accepts,
      and it reads as `s`. */
  predicate SelectedAt(columns: seq<string>, lines: seq<string>, used: nat, s: seq<string>) {
    && 1 <= used <= |lines|
    && ParseSelection(columns, lines[used - 1]) == Ok(s)
    && forall k :: 0 <= k < used - 1 ==> ParseSelection(columns, lines[k]).Err?
  }

  /** An accepted selection: non-empty, without repeats, among `columns`. */
  predicate Choice(columns: seq<string>, s: seq<string>) {
    s != [] && NoDup(s) && Elems(s) <= Elems(columns)
  }

  /** How a session ends. */
  datatype Session =
    | EndOfInput
    | Overlap(columns: set<string>)
    | Cancelled
    | MissingColumns(columns: set<string>)
    | Aggregate(agg: seq<string>, group: seq<string>, operations: map<string, Op>)

  /** `main` with `--aggregate` on a frame with `columns`: aggregation
      columns, their operations, grouping columns, the overlap check, the
      confirmation and the column check, reading `inputs` in turn. */
  method RunSession(columns: seq<string>, inputs: seq<string>) returns (r: Session)
    ensures !r.MissingColumns?
    ensures r.Aggregate? ==>
              && Choice(columns, r.agg) && Choice(columns, r.group)
              && Elems(r.agg) !! Elems(r.group)
              && r.operations.Keys == Elems(r.agg)
    ensures r.Aggregate? ==> exists u, v, w :: SessionAt(columns, inputs, u, v, w, r)
  {
    var agg, used := GetColumnSelection(columns, inputs);
    if agg.None? {
      return EndOfInput;
    }
    var rest := inputs[used..];
    var ops := GetAggregationOperations(agg.value, rest);
    if ops.None? {
      return EndOfInput;
    }
    rest := rest[ops.value.1..];
    var group, used2 := GetColumnSelection(columns, rest);
    if group.None? {
      return EndOfInput;
    }
    r := Confirm(columns, agg.value, group.value, ops.value.0, rest[used2..]);
    if r.Aggregate? {
      assert rest[used2..][0] == rest[used2];
      assert SessionAt(columns, inputs, used, ops.value.1, used2, r);
    }
  }

  /** An aggregation session over `inputs`: the aggregation columns are
      accepted at line `u`, the operations take the next `v` lines, the
      grouping columns are accepted at line `w` of what is left, and the
      line after that confirms. */
  predicate SessionAt(columns: seq<string>, inputs: seq<string>, u: nat, v: nat, w: nat, r: Session)
    requires r.Aggregate?
  {
    && u <= |inputs| && v <= |inputs[u..]| && w < |inputs[u..][v..]|
    && SelectedAt(columns, inputs, u, r.agg)
    && OperationsAt(r.agg, inputs[u..], v, r.operations)
    && SelectedAt(columns, inputs[u..][v..], w, r.group)
    && Trim(Py, Lower(inputs[u..][v..][w])) == "y"
  }

  /** The end of the session once both selections and the operations are
      read: the overlap check, the confirmation prompt (only "y", in any
      case and with surrounding blanks, goes ahead) and the column check. */
  function Confirm(columns: seq<string>, agg: seq<string>, group: seq<string>, operations: map<string, Op>,
                   rest: seq<string>): (r: Session)
    requires Choice(columns, agg) && Choice(columns, group)
    requires operations.Keys == Elems(agg)
    ensures !r.MissingColumns?
    ensures r.Overlap? <==> exists c :: c in agg && c in group
    ensures r.Aggregate? <==> (forall c :: c in agg ==> c !in group) && rest != [] && Trim(Py, Lower(rest[0])) == "y"
    ensures r.Aggregate? ==> r == Aggregate(agg, group, operations) && Elems(agg) !! Elems(group)
  {
    var overlap := CheckOverlap(agg, group);
    if overlap.Fail? then Overlap(overlap.error)
    else if rest == [] then EndOfInput
    else if Trim(Py, Lower(rest[0])) != "y" then Cancelled
    else
      var check := ValidateColumns(columns, agg, group);
      assert check.Pass? by {
        assert forall c :: c in agg ==> c in Elems(agg);
        assert forall c :: c in group ==> c in Elems(group);
        assert forall c :: c in Elems(columns) ==> c in columns;
      }
      assert Elems(agg) !! Elems(group) by {
        assert forall c :: c in Elems(agg) ==> c in agg;
      }
      Aggregation(check, agg, group, operations)
  }

  /** `aggregate_data`: the column check, then the grouping. */
  function Aggregation(check: Outcome<set<string>>, agg: seq<string>, group: seq<string>, operations: map<string, Op>): Session {
    match check
    case Fail(missing) => MissingColumns(missing)
    case Pass => Aggregate(agg, group, operations)
  }
}
