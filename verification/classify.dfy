/** Two small classifiers of the upload page: the badge a status cell gets,
    and which file names the upload accepts. */
module Classify {
  import opened Text

  // ------------------------------------------------------------ status badges

  /** The CSS class a status cell is given. */
  datatype StatusClass = Paid | Expired | Pending

  /** `getStatusClass`: "paid" anywhere in the lower-cased text wins, then
      "expired"; everything else is pending. */
  function GetStatusClass(status: string): (r: StatusClass)
    ensures r == Paid <==> Occurs(Lower(status), "paid")
    ensures r == Expired <==> !Occurs(Lower(status), "paid") && Occurs(Lower(status), "expired")
    ensures r == Pending <==> !Occurs(Lower(status), "paid") && !Occurs(Lower(status), "expired")
  {
    var s := Lower(status);
    if Contains(s, "paid") then Paid
    else if Contains(s, "expired") then Expired
    else Pending
  }

  /** Lower-casing twice changes nothing. */
  lemma LowerIdempotent(s: string)
    ensures Lower(Lower(s)) == Lower(s)
  {
    assert forall i :: 0 <= i < |s| ==> LowerChar(LowerChar(s[i])) == LowerChar(s[i]);
  }

  /** The class ignores letter case. */
  lemma StatusClassIgnoresCase(status: string)
    ensures GetStatusClass(Lower(status)) == GetStatusClass(status)
  {
    LowerIdempotent(status);
  }

  /** The test is a substring test, so "Unpaid" counts as paid. */
  lemma UnpaidIsPaid(prefix: string, suffix: string)
    ensures GetStatusClass(prefix + "Unpaid" + suffix) == Paid
  {
    var s := prefix + "Unpaid" + suffix;
    var l := Lower(s);
    var i := |prefix| + 2;
    assert l[i..i + 4] == "paid" by {
      assert forall j :: 0 <= j < 4 ==> s[i + j] == "paid"[j];
    }
    assert OccursAt(l, "paid", i);
  }

  // ------------------------------------------------------------ upload names

  /** `file.name.match(/\.(xlsx|xls)$/)`: the name ends in ".xlsx" or ".xls",
      with exactly that lower-case spelling. */
  function IsExcelFileName(name: string): (r: bool)
    ensures r <==> exists stem :: stem + ".xlsx" == name || stem + ".xls" == name
  {
    EndsWithStem(name, ".xlsx");
    EndsWithStem(name, ".xls");
    EndsWith(name, ".xlsx") || EndsWith(name, ".xls")
  }

  /** Any stem is accepted, the empty one included, and upper-case
      extensions are not. */
  lemma ExcelNames(stem: string)
    ensures IsExcelFileName(stem + ".xlsx") && IsExcelFileName(stem + ".xls")
    ensures !IsExcelFileName(stem + ".XLSX")
  {
    var n := stem + ".XLSX";
    assert n[|n| - 1] == 'X';
    assert !EndsWith(n, ".xlsx") && !EndsWith(n, ".xls");
    assert EndsWith(stem + ".xlsx", ".xlsx") by {
      assert (stem + ".xlsx")[|stem|..] == ".xlsx";
    }
    assert EndsWith(stem + ".xls", ".xls") by {
      assert (stem + ".xls")[|stem|..] == ".xls";
    }
  }
}
