/** Sequences used as sets. A JavaScript `Set` iterates in insertion order and
    a Python `dict.fromkeys` keeps the first occurrence of each key, so both
    are modelled as duplicate-free sequences rather than as Dafny sets. */
module Collections {

  function Elems<T>(s: seq<T>): set<T> {
    set x | x in s
  }

  predicate NoDup<T(==)>(s: seq<T>) {
    forall i, j :: 0 <= i < j < |s| ==> s[i] != s[j]
  }

  /** Index of the first occurrence of `x` in `s`. */
  function IndexOf<T(==)>(s: seq<T>, x: T): (i: nat)
    requires x in s
    ensures i < |s| && s[i] == x && x !in s[..i]
  {
    if s[0] == x then 0 else 1 + IndexOf(s[1..], x)
  }

  /** Only one index is the first occurrence. */
  lemma FirstOccurrenceUnique<T>(s: seq<T>, x: T, i: nat)
    requires i < |s| && s[i] == x && x !in s[..i]
    ensures IndexOf(s, x) == i
  {
  }

  /** A first occurrence inside a prefix is the first occurrence overall. */
  lemma IndexOfPrefix<T>(s: seq<T>, n: nat, x: T)
    requires n <= |s| && x in s[..n]
    ensures IndexOf(s, x) == IndexOf(s[..n], x)
  {
    var k := IndexOf(s[..n], x);
    assert s[..n][..k] == s[..k];
    FirstOccurrenceUnique(s, x, k);
  }

  /** `set.add(x)`: a new member goes last, existing members keep their places. */
  function Insert<T(==)>(s: seq<T>, x: T): (r: seq<T>)
    ensures Elems(r) == Elems(s) + {x}
    ensures NoDup(s) ==> NoDup(r)
    ensures s <= r
    ensures |r| <= |s| + 1
  {
    if x in s then s else s + [x]
  }

  /** `set.delete(x)`: every other member stays, in the same order. */
  function Remove<T(==)>(s: seq<T>, x: T): (r: seq<T>)
    ensures Elems(r) == Elems(s) - {x}
    ensures NoDup(s) ==> NoDup(r)
    ensures x !in s ==> r == s
    ensures |r| <= |s|
  {
    if s == [] then []
    else if s[0] == x then Remove(s[1..], x)
    else
      var rest := Remove(s[1..], x);
      var r := [s[0]] + rest;
      assert s == [s[0]] + s[1..];
      ElemsCons(s[0], s[1..]);
      ElemsCons(s[0], rest);
      NoDupCons(s[0], s[1..]);
      NoDupCons(s[0], rest);
      r
  }

  lemma ElemsCons<T>(x: T, rest: seq<T>)
    ensures Elems([x] + rest) == {x} + Elems(rest)
  {
  }

  /** A sequence with a first element is repeat-free exactly when the rest
      is and does not contain that element. */
  lemma NoDupCons<T>(x: T, rest: seq<T>)
    ensures NoDup([x] + rest) <==> x !in rest && NoDup(rest)
  {
    var s := [x] + rest;
    if NoDup(s) {
      forall j | 0 <= j < |rest| ensures rest[j] != x {
        assert s[0] != s[j + 1];
      }
      forall i, j | 0 <= i < j < |rest| ensures rest[i] != rest[j] {
        assert rest[i] == s[i + 1] && rest[j] == s[j + 1];
      }
    }
    if x !in rest && NoDup(rest) {
      forall i, j | 0 <= i < j < |s| ensures s[i] != s[j] {
        if i == 0 {
          assert s[j] == rest[j - 1];
        } else {
          assert s[i] == rest[i - 1] && s[j] == rest[j - 1];
        }
      }
    }
  }

  /** `list(dict.fromkeys(s))`: each element once, at its first occurrence. */
  function Dedup<T(==)>(s: seq<T>): (r: seq<T>)
    ensures Elems(r) == Elems(s)
    ensures NoDup(r)
    ensures |r| <= |s|
  {
    if s == [] then [] else Insert(Dedup(s[..|s| - 1]), s[|s| - 1])
  }

  /** Dedup keeps first-occurrence order: earlier in the result means first
      seen earlier in the input. */
  lemma {:induction false} DedupOrder<T>(s: seq<T>)
    ensures forall i :: 0 <= i < |Dedup(s)| ==> Dedup(s)[i] in s
    ensures forall i, j :: 0 <= i < j < |Dedup(s)| ==>
              IndexOf(s, Dedup(s)[i]) < IndexOf(s, Dedup(s)[j])
    decreases |s|
  {
    if s != [] {
      var init := s[..|s| - 1];
      var last := s[|s| - 1];
      var d := Dedup(init);
      DedupOrder(init);
      assert s == init + [last];
      assert forall i :: 0 <= i < |d| ==> d[i] in init;
      forall x | x in init ensures IndexOf(s, x) == IndexOf(init, x) {
        IndexOfPrefix(s, |s| - 1, x);
      }
      if last !in init {
        FirstOccurrenceUnique(s, last, |s| - 1);
        assert Dedup(s) == d + [last];
      } else {
        assert Dedup(s) == d;
      }
    }
  }
}
