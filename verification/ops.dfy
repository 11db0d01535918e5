/** The seven aggregation operations both front ends offer. */
module Ops {
  import opened Results
  import opened Collections

  datatype Op = Sum | Mean | Count | Min | Max | Median | Std

  /** The operation menu in display order; a freshly built select shows the
      first entry. */
  const Available: seq<Op> := [Sum, Mean, Count, Min, Max, Median, Std]

  /** The wire name of an operation, as sent to the aggregation endpoint. */
  function Name(op: Op): string {
    match op
    case Sum => "sum"
    case Mean => "mean"
    case Count => "count"
    case Min => "min"
    case Max => "max"
    case Median => "median"
    case Std => "std"
  }

  /** Looking a wire name up among the valid operations. */
  function FromName(s: string): (r: Option<Op>)
    ensures r.Some? ==> Name(r.value) == s
    ensures r.None? ==> forall op: Op :: Name(op) != s
  {
    if s == "sum" then Some(Sum)
    else if s == "mean" then Some(Mean)
    else if s == "count" then Some(Count)
    else if s == "min" then Some(Min)
    else if s == "max" then Some(Max)
    else if s == "median" then Some(Median)
    else if s == "std" then Some(Std)
    else None
  }

  /** Every operation's name reads back as that operation. */
  lemma FromNameName(op: Op)
    ensures FromName(Name(op)) == Some(op)
  {
  }

  /** The menu lists every operation exactly once and starts with sum. */
  lemma AvailableIsComplete()
    ensures forall op: Op :: op in Available
    ensures NoDup(Available)
    ensures Available[0] == Sum
  {
    forall op: Op ensures op in Available {
      match op
      case Sum => assert Available[0] == op;
      case Mean => assert Available[1] == op;
      case Count => assert Available[2] == op;
      case Min => assert Available[3] == op;
      case Max => assert Available[4] == op;
      case Median => assert Available[5] == op;
      case Std => assert Available[6] == op;
    }
  }
}
