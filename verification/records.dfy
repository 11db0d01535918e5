/** A JavaScript object filled by assigning properties one after another:
    assigning to a key that is already present overwrites it, so each key ends
    up holding the value of the LAST assignment to it. */
module Records {
  import opened Results
  import opened Collections

  /** One parsed row: property name to value, `None` standing for `undefined`. */
  type Record = map<string, Option<string>>

  /** `i` is the last position at which `keys[i]` occurs. */
  ghost predicate IsLastIndex(keys: seq<string>, i: int) {
    0 <= i < |keys| && forall j :: i < j < |keys| ==> keys[j] != keys[i]
  }

  /** `obj[keys[i]] = vals[i]` for i = 0, 1, ... on a fresh object. */
  function Assign<V>(keys: seq<string>, vals: seq<V>): (r: map<string, V>)
    requires |keys| == |vals|
    ensures r.Keys == Elems(keys)
    ensures forall i :: IsLastIndex(keys, i) ==> r[keys[i]] == vals[i]
    decreases |keys|
  {
    if keys == [] then map[]
    else
      var n := |keys| - 1;
      var m := Assign(keys[..n], vals[..n]);
      assert Elems(keys) == Elems(keys[..n]) + {keys[n]} by {
        assert keys == keys[..n] + [keys[n]];
      }
      assert forall i :: IsLastIndex(keys, i) && i < n ==> IsLastIndex(keys[..n], i);
      m[keys[n] := vals[n]]
  }

  /** Every key ends up with the value of its last assignment. */
  lemma AssignLastWins<V>(keys: seq<string>, vals: seq<V>, k: string)
    requires |keys| == |vals| && k in keys
    ensures exists i :: IsLastIndex(keys, i) && keys[i] == k && Assign(keys, vals)[k] == vals[i]
  {
    var i := |keys| - 1;
    while keys[i] != k
      invariant 0 <= i < |keys|
      invariant forall j :: i < j < |keys| ==> keys[j] != k
      decreases i
    {
      assert k in keys[..i] by {
        var j :| 0 <= j < |keys| && keys[j] == k;
        assert j < i;
        assert keys[..i][j] == k;
      }
      i := i - 1;
    }
    assert IsLastIndex(keys, i);
  }
}
