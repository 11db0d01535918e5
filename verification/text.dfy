/** Character-level string operations the browser script and the CLI lean on:
    whitespace trimming (JavaScript `trim`, Python `strip`), splitting on a set
    of single-character delimiters, joining, ASCII lower-casing, substring and
    suffix tests, and decimal digit strings. */
module Text {

  /** Whose notion of whitespace a trim uses. */
  datatype Lang = Js | Py

  /** The characters JavaScript `trim` and Python `str.strip` remove.
      Both remove tab, line feed, vertical tab, form feed, carriage return
      and space; Python also removes the information separators U+001C to
      U+001F. Beyond ASCII see `WideSpace`. */
  predicate IsSpace(lang: Lang, c: char) {
    || '\t' <= c <= '\r' || c == ' '
    || (lang == Py && '\U{1C}' <= c <= '\U{1F}')
    || ('\U{85}' <= c && WideSpace(lang, c))
  }

  /** Whitespace beyond ASCII. JavaScript's is the rest of the WhiteSpace
      and LineTerminator code points of sections 12.2 and 12.3 of ECMA-262
      (2023 edition); Python's is the rest of what `str.isspace` accepts.
      Both hold the space separators of Unicode category Zs (no-break space,
      U+1680, U+2000 to U+200A, U+202F, U+205F, U+3000) and the line and
      paragraph separators U+2028 and U+2029; JavaScript adds the byte order
      mark U+FEFF and Python the next-line control U+0085. */
  predicate WideSpace(lang: Lang, c: char) {
    || c == '\U{A0}' || c == '\U{1680}' || '\U{2000}' <= c <= '\U{200A}'
    || c == '\U{2028}' || c == '\U{2029}' || c == '\U{202F}' || c == '\U{205F}' || c == '\U{3000}'
    || (lang == Js && c == '\U{FEFF}')
    || (lang == Py && c == '\U{85}')
  }

  predicate AllSpace(lang: Lang, s: string) {
    forall i :: 0 <= i < |s| ==> IsSpace(lang, s[i])
  }

  /** A string with no whitespace at either end. */
  predicate IsTrimmed(lang: Lang, s: string) {
    s == [] || (!IsSpace(lang, s[0]) && !IsSpace(lang, s[|s| - 1]))
  }

  /** No character of `s` belongs to `cs`. */
  predicate NoneIn(s: string, cs: set<char>) {
    forall i :: 0 <= i < |s| ==> s[i] !in cs
  }

  // ---------------------------------------------------------------- trimming

  function TrimStart(lang: Lang, s: string): (r: string)
    ensures |r| <= |s| && r == s[|s| - |r|..]
    ensures AllSpace(lang, s[..|s| - |r|])
    ensures r == [] || !IsSpace(lang, r[0])
  {
    if |s| > 0 && IsSpace(lang, s[0]) then
      var t := s[1..];
      var r := TrimStart(lang, t);
      var k := |s| - |r|;
      assert t[k - 1..] == s[k..];
      assert AllSpace(lang, s[..k]) by {
        forall i | 0 <= i < k ensures IsSpace(lang, s[..k][i]) {
          if i > 0 {
            assert s[..k][i] == t[..k - 1][i - 1];
          }
        }
      }
      r
    else
      assert s[..0] == [];
      s
  }

  function TrimEnd(lang: Lang, s: string): (r: string)
    ensures |r| <= |s| && r == s[..|r|]
    ensures AllSpace(lang, s[|r|..])
    ensures r == [] || !IsSpace(lang, r[|r| - 1])
  {
    if |s| > 0 && IsSpace(lang, s[|s| - 1]) then
      var init := s[..|s| - 1];
      var r := TrimEnd(lang, init);
      assert init[..|r|] == s[..|r|];
      assert s[|r|..] == init[|r|..] + [s[|s| - 1]];
      r
    else
      assert s[|s|..] == [];
      s
  }

  /** `s.trim()` in JavaScript, `s.strip()` in Python. */
  function Trim(lang: Lang, s: string): (r: string)
    ensures IsTrimmed(lang, r)
    ensures r == [] <==> AllSpace(lang, s)
    ensures forall c :: c in r ==> c in s
  {
    TrimEnds(lang, s);
    TrimBlank(lang, s);
    TrimInside(lang, s);
    TrimEnd(lang, TrimStart(lang, s))
  }

  /** Neither end of the trimmed string is whitespace. */
  lemma TrimEnds(lang: Lang, s: string)
    ensures IsTrimmed(lang, TrimEnd(lang, TrimStart(lang, s)))
  {
    var a := TrimStart(lang, s);
    var r := TrimEnd(lang, a);
    if r != [] {
      assert r[0] == a[0];
    }
  }

  /** Only a blank string trims to nothing. */
  lemma TrimBlank(lang: Lang, s: string)
    ensures TrimEnd(lang, TrimStart(lang, s)) == [] <==> AllSpace(lang, s)
  {
    var a := TrimStart(lang, s);
    if a != [] {
      assert a[0] == s[|s| - |a|];
    } else {
      assert s == s[..|s| - |a|] + a;
    }
    if TrimEnd(lang, a) == [] {
      assert a == a[..0] + a[0..];
      assert s == s[..|s| - |a|] + a;
    }
  }

  /** Trimming keeps a run of the original characters. */
  lemma TrimInside(lang: Lang, s: string)
    ensures forall c :: c in TrimEnd(lang, TrimStart(lang, s)) ==> c in s
  {
    var a := TrimStart(lang, s);
    var r := TrimEnd(lang, a);
    assert a == s[|s| - |a|..] && r == a[..|r|];
    assert forall c :: c in r ==> c in a;
    assert forall c :: c in a ==> c in s;
  }

  /** Trim removes exactly the surrounding padding and nothing of the text. */
  lemma {:induction false} TrimPadded(lang: Lang, pre: string, s: string, post: string)
    requires AllSpace(lang, pre) && AllSpace(lang, post) && IsTrimmed(lang, s)
    ensures Trim(lang, pre + s + post) == s
  {
    var t := pre + s + post;
    if s == [] {
      assert t == pre + post;
      forall i | 0 <= i < |t| ensures IsSpace(lang, t[i]) {
        if i < |pre| {
          assert t[i] == pre[i];
        } else {
          assert t[i] == post[i - |pre|];
        }
      }
      assert AllSpace(lang, t);
    } else {
      assert pre + (s + post) == t;
      TrimStartPadded(lang, pre, s + post);
      assert TrimStart(lang, t) == s + post;
      TrimEndPadded(lang, s, post);
    }
  }

  lemma {:induction false} TrimStartPadded(lang: Lang, pre: string, s: string)
    requires AllSpace(lang, pre)
    requires s == [] || !IsSpace(lang, s[0])
    ensures TrimStart(lang, pre + s) == s
    decreases |pre|
  {
    if pre != [] {
      assert (pre + s)[1..] == pre[1..] + s;
      TrimStartPadded(lang, pre[1..], s);
    }
  }

  lemma {:induction false} TrimEndPadded(lang: Lang, s: string, post: string)
    requires AllSpace(lang, post)
    requires s == [] || !IsSpace(lang, s[|s| - 1])
    ensures TrimEnd(lang, s + post) == s
    decreases |post|
  {
    if post != [] {
      assert (s + post)[..|s + post| - 1] == s + post[..|post| - 1];
      TrimEndPadded(lang, s, post[..|post| - 1]);
    }
  }

  /** A trimmed string is its own trim. */
  lemma TrimTrimmed(lang: Lang, s: string)
    requires IsTrimmed(lang, s)
    ensures Trim(lang, s) == s
  {
    assert [] + s == s && s + [] == s;
    TrimStartPadded(lang, [], s);
    TrimEndPadded(lang, s, []);
  }

  /** Trimming adds no character. */
  lemma TrimNoneIn(lang: Lang, s: string, cs: set<char>)
    requires NoneIn(s, cs)
    ensures NoneIn(Trim(lang, s), cs)
  {
    var t := Trim(lang, s);
    forall i | 0 <= i < |t| ensures t[i] !in cs {
      assert t[i] in t;
    }
  }

  /** Trimming every element, as `.map(v => v.trim())` does. */
  function TrimAll(lang: Lang, ss: seq<string>): (r: seq<string>)
    ensures |r| == |ss|
    ensures forall i :: 0 <= i < |ss| ==> r[i] == Trim(lang, ss[i])
  {
    seq(|ss|, i requires 0 <= i < |ss| => Trim(lang, ss[i]))
  }

  /** Every element has no whitespace at either end. */
  predicate AllTrimmed(lang: Lang, ss: seq<string>) {
    forall i :: 0 <= i < |ss| ==> IsTrimmed(lang, ss[i])
  }

  /** Trimming strings that are already trimmed changes nothing. */
  lemma TrimAllTrimmed(lang: Lang, ss: seq<string>)
    requires AllTrimmed(lang, ss)
    ensures TrimAll(lang, ss) == ss
  {
    forall i | 0 <= i < |ss| ensures TrimAll(lang, ss)[i] == ss[i] {
      TrimTrimmed(lang, ss[i]);
    }
  }

  lemma AllTrimmedCons(lang: Lang, s: string, ss: seq<string>)
    requires IsTrimmed(lang, s) && AllTrimmed(lang, ss)
    ensures AllTrimmed(lang, [s] + ss)
  {
    forall i | 0 <= i < |[s] + ss| ensures IsTrimmed(lang, ([s] + ss)[i]) {
      if i > 0 {
        assert ([s] + ss)[i] == ss[i - 1];
      }
    }
  }

  // ---------------------------------------------------------------- splitting

  /** Number of characters of `s` in `cs`. */
  function Count(s: string, cs: set<char>): nat {
    if s == [] then 0 else (if s[0] in cs then 1 else 0) + Count(s[1..], cs)
  }

  /** The characters of `s` that belong to `cs`, in order. */
  function Delimiters(s: string, cs: set<char>): (r: string)
    ensures |r| == Count(s, cs)
    ensures forall i :: 0 <= i < |r| ==> r[i] in cs
  {
    if s == [] then [] else (if s[0] in cs then [s[0]] else []) + Delimiters(s[1..], cs)
  }

  /** Splitting on every single occurrence of any character of `delims`, as
      `s.split(/[\t,]/)` in JavaScript or `s.split(',')` in Python: empty
      fields are kept, and the empty string gives one empty field. */
  function Split(s: string, delims: set<char>): (r: seq<string>)
    ensures |r| == Count(s, delims) + 1
    ensures forall k :: 0 <= k < |r| ==> NoneIn(r[k], delims)
  {
    if s == [] then [""]
    else
      var rest := Split(s[1..], delims);
      if s[0] in delims then [""] + rest
      else [[s[0]] + rest[0]] + rest[1..]
  }

  /** `fields[0] + seps[0] + fields[1] + ... + fields[n]`. */
  function Interleave(fields: seq<string>, seps: string): string
    requires |fields| == |seps| + 1
  {
    if seps == [] then fields[0]
    else fields[0] + [seps[0]] + Interleave(fields[1..], seps[1..])
  }

  /** `fields.join(sep)` for a single-character separator. */
  function Join(fields: seq<string>, sep: char): string {
    if fields == [] then [] else Interleave(fields, seq(|fields| - 1, _ => sep))
  }

  /** Putting the fields back between the delimiters that separated them
      gives the original string. */
  lemma {:induction false} InterleaveSplit(s: string, delims: set<char>)
    ensures Interleave(Split(s, delims), Delimiters(s, delims)) == s
    decreases |s|
  {
    if s != [] {
      InterleaveSplit(s[1..], delims);
      var rest := Split(s[1..], delims);
      var ds := Delimiters(s[1..], delims);
      if s[0] in delims {
        assert Split(s, delims) == [""] + rest;
        assert Delimiters(s, delims) == [s[0]] + ds;
        assert ([""] + rest)[1..] == rest;
      } else {
        assert Delimiters(s, delims) == ds;
        var r := Split(s, delims);
        assert r == [[s[0]] + rest[0]] + rest[1..];
        if ds == [] {
          assert s == [s[0]] + s[1..];
        } else {
          assert r[1..] == rest[1..];
          assert Interleave(rest, ds) == rest[0] + [ds[0]] + Interleave(rest[1..], ds[1..]);
          assert s == [s[0]] + s[1..];
        }
      }
    }
  }

  /** A delimiter-free prefix merges into the first field. */
  lemma {:induction false} SplitDelimiterFreePrefix(a: string, t: string, delims: set<char>)
    requires NoneIn(a, delims)
    ensures Split(a + t, delims) == [a + Split(t, delims)[0]] + Split(t, delims)[1..]
    decreases |a|
  {
    if a != [] {
      assert (a + t)[1..] == a[1..] + t;
      SplitDelimiterFreePrefix(a[1..], t, delims);
      assert (a + t)[0] == a[0];
      assert [a[0]] + (a[1..] + Split(t, delims)[0]) == a + Split(t, delims)[0];
    } else {
      assert a + t == t;
      assert |Split(t, delims)| >= 1;
      assert a + Split(t, delims)[0] == Split(t, delims)[0];
    }
  }

  /** Splitting undoes interleaving when the fields hold no delimiter and
      every separator is one. */
  lemma {:induction false} SplitInterleave(fields: seq<string>, seps: string, delims: set<char>)
    requires |fields| == |seps| + 1
    requires forall k :: 0 <= k < |fields| ==> NoneIn(fields[k], delims)
    requires forall i :: 0 <= i < |seps| ==> seps[i] in delims
    ensures Split(Interleave(fields, seps), delims) == fields
    decreases |seps|
  {
    if seps == [] {
      SplitDelimiterFreePrefix(fields[0], [], delims);
      assert fields[0] + [] == fields[0];
    } else {
      var tail := Interleave(fields[1..], seps[1..]);
      SplitInterleave(fields[1..], seps[1..], delims);
      SplitAtDelimiter(seps[0], tail, delims);
      assert fields[0] + [seps[0]] + tail == fields[0] + ([seps[0]] + tail);
      SplitDelimiterFreePrefix(fields[0], [seps[0]] + tail, delims);
      assert fields[0] + "" == fields[0];
    }
  }

  /** A leading delimiter ends an empty first field. */
  lemma SplitAtDelimiter(c: char, t: string, delims: set<char>)
    requires c in delims
    ensures Split([c] + t, delims) == [""] + Split(t, delims)
  {
    assert ([c] + t)[1..] == t;
  }

  /** Joining with a delimiter and splitting again is the identity. */
  lemma SplitJoin(fields: seq<string>, sep: char, delims: set<char>)
    requires |fields| >= 1 && sep in delims
    requires forall k :: 0 <= k < |fields| ==> NoneIn(fields[k], delims)
    ensures Split(Join(fields, sep), delims) == fields
  {
    SplitInterleave(fields, seq(|fields| - 1, _ => sep), delims);
  }

  /** Characters that appear in a join come from a field or are the separator. */
  lemma {:induction false} InterleaveChars(fields: seq<string>, seps: string, cs: set<char>)
    requires |fields| == |seps| + 1
    requires forall k :: 0 <= k < |fields| ==> NoneIn(fields[k], cs)
    requires forall i :: 0 <= i < |seps| ==> seps[i] !in cs
    ensures NoneIn(Interleave(fields, seps), cs)
    decreases |seps|
  {
    if seps != [] {
      InterleaveChars(fields[1..], seps[1..], cs);
      var t := Interleave(fields[1..], seps[1..]);
      var j := fields[0] + [seps[0]] + t;
      forall i | 0 <= i < |j| ensures j[i] !in cs {
        if i < |fields[0]| {
          assert j[i] == fields[0][i];
        } else if i > |fields[0]| {
          assert j[i] == t[i - |fields[0]| - 1];
        }
      }
    }
  }

  // ---------------------------------------------------------------- case

  /** ASCII `toLowerCase` / `lower`. */
  function LowerChar(c: char): char {
    if 'A' <= c <= 'Z' then (c as int + 32) as char else c
  }

  function Lower(s: string): (r: string)
    ensures |r| == |s|
    ensures forall i :: 0 <= i < |s| ==> r[i] == LowerChar(s[i])
  {
    seq(|s|, i requires 0 <= i < |s| => LowerChar(s[i]))
  }

  // ---------------------------------------------------------------- substrings

  /** `t` occurs in `s` starting at index `i`. */
  predicate OccursAt(s: string, t: string, i: nat) {
    i + |t| <= |s| && s[i..i + |t|] == t
  }

  /** `t` is a substring of `s` (reference definition). */
  ghost predicate Occurs(s: string, t: string) {
    exists i: nat :: i <= |s| && OccursAt(s, t, i)
  }

  /** `s.includes(t)`, scanning left to right. */
  function Contains(s: string, t: string): (r: bool)
    ensures r <==> Occurs(s, t)
    decreases |s|
  {
    if |t| <= |s| && s[..|t|] == t then
      assert OccursAt(s, t, 0);
      true
    else if |s| <= |t| then
      assert forall i: nat :: i <= |s| && OccursAt(s, t, i) ==> i == 0 && |s| == |t|;
      false
    else
      OccursShift(s, t);
      Contains(s[1..], t)
  }

  /** Without a match at the front, `t` occurs in `s` exactly when it occurs
      after the first character. */
  lemma OccursShift(s: string, t: string)
    requires |t| < |s| && s[..|t|] != t
    ensures Occurs(s, t) <==> Occurs(s[1..], t)
  {
    if Occurs(s[1..], t) {
      var i: nat :| i <= |s[1..]| && OccursAt(s[1..], t, i);
      assert s[1..][i..i + |t|] == s[i + 1..i + 1 + |t|];
      assert OccursAt(s, t, i + 1);
    }
    if Occurs(s, t) {
      var i: nat :| i <= |s| && OccursAt(s, t, i);
      assert i != 0;
      assert s[1..][i - 1..i - 1 + |t|] == s[i..i + |t|];
      assert OccursAt(s[1..], t, i - 1);
    }
  }

  /** `s` ends with `suffix`. */
  predicate EndsWith(s: string, suffix: string) {
    |suffix| <= |s| && s[|s| - |suffix|..] == suffix
  }

  /** A suffix test is the same as asking for a stem that completes the string. */
  lemma EndsWithStem(s: string, suffix: string)
    ensures EndsWith(s, suffix) <==> exists stem :: stem + suffix == s
  {
    if EndsWith(s, suffix) {
      assert s[..|s| - |suffix|] + suffix == s;
    }
    if exists stem :: stem + suffix == s {
      var stem :| stem + suffix == s;
      assert s[|s| - |suffix|..] == suffix;
    }
  }

  // ---------------------------------------------------------------- digits

  predicate IsDigit(c: char) {
    '0' <= c <= '9'
  }

  /** Python's `str.isdigit` over ASCII: non-empty and all decimal digits. */
  predicate IsDigits(s: string) {
    |s| > 0 && forall i :: 0 <= i < |s| ==> IsDigit(s[i])
  }

  /** Python's `int(s)` for a decimal digit string (leading zeros allowed). */
  function DigitsValue(s: string): nat
    requires forall i :: 0 <= i < |s| ==> IsDigit(s[i])
  {
    if s == [] then 0
    else
      assert IsDigit(s[|s| - 1]);
      10 * DigitsValue(s[..|s| - 1]) + (s[|s| - 1] as int - '0' as int)
  }

  function DigitChar(d: nat): (c: char)
    requires d < 10
    ensures IsDigit(c) && c as int - '0' as int == d
  {
    ('0' as int + d) as char
  }

  /** Python's `str(k)` for a natural number: its decimal digits, without
      a leading zero. */
  function Numeral(k: nat): (r: string)
    ensures IsDigits(r)
    ensures k > 0 ==> r[0] != '0'
    decreases k
  {
    if k < 10 then [DigitChar(k)] else Numeral(k / 10) + [DigitChar(k % 10)]
  }

  /** `int(str(k)) == k`. */
  lemma {:induction false} NumeralValue(k: nat)
    ensures DigitsValue(Numeral(k)) == k
    decreases k
  {
    var s := Numeral(k);
    if k < 10 {
      assert s[..|s| - 1] == [];
    } else {
      NumeralValue(k / 10);
      assert s[..|s| - 1] == Numeral(k / 10);
    }
  }
}
