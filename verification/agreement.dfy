/** The web page and the command line guard the same aggregation: whatever
    request the page sends from a consistent state would pass the checks the
    command line makes before grouping. */
module Agreement {
  import opened Results
  import opened Text
  import opened Collections
  import opened Ops
  import opened Selection
  import opened Cli

  /** An operation's wire name reads back as that operation at the command
      line's prompt. */
  lemma NameParses(op: Op)
    ensures ParseOperation(Name(op)) == Some(op)
  {
    var n := Name(op);
    NameIsLower(op);
    NameLetters(op);
    assert IsTrimmed(Py, n) by {
      assert 'a' <= n[0] <= 'z' && 'a' <= n[|n| - 1] <= 'z';
    }
    TrimTrimmed(Py, n);
    FromNameName(op);
  }

  /** Wire names are written in lower case. */
  lemma NameIsLower(op: Op)
    ensures Lower(Name(op)) == Name(op)
  {
    var n := Name(op);
    NameLetters(op);
    assert forall i :: 0 <= i < |n| ==> LowerChar(n[i]) == n[i];
  }

  lemma NameLetters(op: Op)
    ensures forall i :: 0 <= i < |Name(op)| ==> 'a' <= Name(op)[i] <= 'z'
  {
    match op
    case Sum =>
    case Mean =>
    case Count =>
    case Min =>
    case Max =>
    case Median =>
    case Std =>
  }

  /** Column lists that are disjoint and drawn from the frame's columns pass
      both command-line checks. */
  lemma SelectionPassesChecks(columns: seq<string>, agg: seq<string>, group: seq<string>)
    requires Elems(agg) <= Elems(columns) && Elems(group) <= Elems(columns)
    requires Elems(agg) !! Elems(group)
    ensures CheckOverlap(agg, group) == Pass
    ensures ValidateColumns(columns, agg, group) == Pass
  {
    assert forall c :: c in agg ==> c in Elems(agg);
    assert forall c :: c in group ==> c in Elems(group);
    assert forall c :: c in Elems(columns) ==> c in columns;
  }

  /** The payload of any request from a consistent page has no column on
      both sides, names only columns the page listed, and carries operation
      names the command line would accept as typed. */
  lemma RequestPassesCliChecks(p: Page)
    requires Valid(p) && ClickGenerate(p).request.Some?
    ensures var q := ClickGenerate(p).request.value.payload;
            && CheckOverlap(q.aggColumns, q.groupColumns) == Pass
            && ValidateColumns(p.columns, q.aggColumns, q.groupColumns) == Pass
            && forall c :: c in q.operations ==> ParseOperation(q.operations[c]).Some?
  {
    ClickRequest(p);
    var q := ClickGenerate(p).request.value.payload;
    SelectionPassesChecks(p.columns, q.aggColumns, q.groupColumns);
    forall c | c in q.operations ensures ParseOperation(q.operations[c]).Some? {
      assert FromName(q.operations[c]).Some?;
      var op := FromName(q.operations[c]).value;
      assert Name(op) == q.operations[c];
      NameParses(op);
    }
  }
}
