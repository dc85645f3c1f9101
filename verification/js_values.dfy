/** The few JavaScript value semantics the dashboard's logic depends on:
    values that may be NaN or undefined, thrown TypeErrors, and the string
    operations `trim`, `split(",")` and `toLowerCase`. */
module JsValues {

  datatype Option<T> = None | Some(value: T)

  /** A thrown exception. */
  datatype JsError = TypeError(message: string)

  /** The outcome of code that may throw. */
  datatype Result<T> = Ok(value: T) | Err(error: JsError)

  /** A JavaScript number as it reaches a comparison: `None` stands for NaN
      (also what `undefined` becomes), with which every comparison is false. */
  type Num = Option<real>

  /** `x >= lo` on JavaScript numbers. */
  predicate AtLeast(x: Num, lo: Num) {
    x.Some? && lo.Some? && x.value >= lo.value
  }

  /** `x <= hi` on JavaScript numbers. */
  predicate AtMost(x: Num, hi: Num) {
    x.Some? && hi.Some? && x.value <= hi.value
  }

  /** `x >= lo && x <= hi`: both ends inclusive, NaN anywhere fails. */
  predicate Within(x: Num, lo: Num, hi: Num) {
    AtLeast(x, lo) && AtMost(x, hi)
  }

  /** `Date.prototype.getTime()` compared against a bound: `None` is an
      Invalid Date, whose time value is NaN. */
  predicate WithinTime(t: Option<int>, lo: Option<int>, hi: Option<int>) {
    t.Some? && lo.Some? && hi.Some? && lo.value <= t.value <= hi.value
  }

  /** The interval [lo, hi] contains the interval [lo', hi'] (a NaN bound on the
      inner one makes it empty, so any outer interval contains it). */
  predicate Contains(lo: Num, hi: Num, lo': Num, hi': Num) {
    (lo'.None? || hi'.None? || lo'.value > hi'.value)
    || (lo.Some? && hi.Some? && lo.value <= lo'.value && hi'.value <= hi.value)
  }

  lemma {:induction false} WithinWider(x: Num, lo: Num, hi: Num, lo': Num, hi': Num)
    requires Contains(lo, hi, lo', hi')
    ensures Within(x, lo', hi') ==> Within(x, lo, hi)
  {
  }

  /** ECMAScript WhiteSpace and LineTerminator code points, the set `trim` removes. */
  predicate IsSpace(c: char) {
    c == '\t' || c == '\n' || c == '\U{000B}' || c == '\U{000C}' || c == '\r' || c == ' '
    || c == '\U{00A0}' || c == '\U{1680}' || ('\U{2000}' <= c <= '\U{200A}')
    || c == '\U{2028}' || c == '\U{2029}' || c == '\U{202F}' || c == '\U{205F}'
    || c == '\U{3000}' || c == '\U{FEFF}'
  }

  predicate AllSpace(s: string) {
    forall i :: 0 <= i < |s| ==> IsSpace(s[i])
  }

  /** The number of leading white-space characters of `s`. */
  function LeadingSpaces(s: string): (i: nat)
    ensures i <= |s| && AllSpace(s[..i])
    ensures i == |s| || !IsSpace(s[i])
  {
    if s == [] || !IsSpace(s[0]) then 0
    else
      var k := LeadingSpaces(s[1..]);
      assert s[..k + 1] == [s[0]] + s[1..][..k];
      k + 1
  }

  /** Where the trailing white space of `s` begins. */
  function TrailingStart(s: string): (j: nat)
    ensures j <= |s| && AllSpace(s[j..])
    ensures j == 0 || !IsSpace(s[j - 1])
  {
    if s == [] || !IsSpace(s[|s| - 1]) then |s|
    else
      var p := s[..|s| - 1];
      var k := TrailingStart(p);
      assert s[k..] == p[k..] + [s[|s| - 1]];
      k
  }

  /** `String.prototype.trim`: `s` without its leading and trailing white space. */
  function Trim(s: string): (r: string)
    ensures |r| <= |s|
    ensures r == [] || (!IsSpace(r[0]) && !IsSpace(r[|r| - 1]))
  {
    var t := s[LeadingSpaces(s)..];
    t[..TrailingStart(t)]
  }

  /** `s` is `Trim(s)` with white space around it. */
  lemma {:induction false} TrimIsFactor(s: string)
    ensures exists i, j :: 0 <= i <= j <= |s| && Trim(s) == s[i..j]
              && AllSpace(s[..i]) && AllSpace(s[j..])
  {
    var i := LeadingSpaces(s);
    var t := s[i..];
    var j := TrailingStart(t);
    assert Trim(s) == s[i..i + j];
    assert s[i + j..] == t[j..];
  }

  /** Trim is determined by that shape: whatever `s` splits into as white space,
      a middle without white space at its ends, and white space, the middle is
      what `trim` returns. */
  lemma {:induction false} TrimUnique(a: string, m: string, b: string)
    requires AllSpace(a) && AllSpace(b)
    requires m == [] || (!IsSpace(m[0]) && !IsSpace(m[|m| - 1]))
    ensures Trim(a + m + b) == m
  {
    var s := a + m + b;
    var i := LeadingSpaces(s);
    if m == [] {
      assert AllSpace(s);
      assert i == |s|;
    } else {
      assert s[|a|] == m[0];
      assert i == |a|;
      var t := s[i..];
      assert t == m + b;
      var j := TrailingStart(t);
      assert t[|m| - 1] == m[|m| - 1];
      assert j == |m|;
    }
  }

  /** Trimming twice is trimming once. */
  lemma {:induction false} TrimIdempotent(s: string)
    ensures Trim(Trim(s)) == Trim(s)
  {
    var r := Trim(s);
    TrimUnique([], r, []);
    assert [] + r + [] == r;
  }

  /** The number of commas in `s`. */
  function CountCommas(s: string): nat {
    if s == [] then 0 else (if s[0] == ',' then 1 else 0) + CountCommas(s[1..])
  }

  /** `s.split(",")`: the pieces between commas; the empty string gives `[""]`. */
  function SplitCommas(s: string): (r: seq<string>)
    ensures |r| == CountCommas(s) + 1
    ensures forall k :: 0 <= k < |r| ==> ',' !in r[k]
  {
    if s == [] then [""]
    else
      var rest := SplitCommas(s[1..]);
      if s[0] == ',' then [""] + rest
      else [[s[0]] + rest[0]] + rest[1..]
  }

  /** `pieces.join(",")`. */
  function JoinCommas(pieces: seq<string>): string
    requires |pieces| >= 1
  {
    if |pieces| == 1 then pieces[0] else pieces[0] + "," + JoinCommas(pieces[1..])
  }

  /** Joining the pieces gives back the split string. */
  lemma {:induction false} JoinSplit(s: string)
    ensures JoinCommas(SplitCommas(s)) == s
  {
    if s != [] {
      JoinSplit(s[1..]);
      var rest := SplitCommas(s[1..]);
      if s[0] == ',' {
        assert SplitCommas(s)[1..] == rest;
      } else {
        var r := SplitCommas(s);
        if |rest| == 1 {
          assert r == [[s[0]] + rest[0]];
        } else {
          assert r[1..] == rest[1..];
          assert JoinCommas(rest) == rest[0] + "," + JoinCommas(rest[1..]);
        }
      }
    }
  }

  /** Splitting a join of comma-free pieces gives back the pieces. */
  lemma {:induction false} SplitJoin(pieces: seq<string>)
    requires |pieces| >= 1
    requires forall k :: 0 <= k < |pieces| ==> ',' !in pieces[k]
    ensures SplitCommas(JoinCommas(pieces)) == pieces
  {
    if |pieces| == 1 {
      SplitNoComma(pieces[0]);
    } else {
      SplitJoin(pieces[1..]);
      SplitPrefix(pieces[0], JoinCommas(pieces[1..]));
      assert [pieces[0]] + pieces[1..] == pieces;
    }
  }

  lemma {:induction false} SplitNoComma(s: string)
    requires ',' !in s
    ensures SplitCommas(s) == [s]
  {
    if s != [] {
      SplitNoComma(s[1..]);
      assert [s[0]] + s[1..] == s;
    }
  }

  lemma {:induction false} SplitPrefix(a: string, b: string)
    requires ',' !in a
    ensures SplitCommas(a + "," + b) == [a] + SplitCommas(b)
  {
    if a == [] {
      assert a + "," + b == [','] + b;
      assert ([','] + b)[1..] == b;
    } else {
      assert (a + "," + b)[1..] == a[1..] + "," + b;
      SplitPrefix(a[1..], b);
      assert [a[0]] + a[1..] == a;
    }
  }

  /** `String.prototype.toLowerCase` restricted to ASCII letters. */
  function ToLower(s: string): (r: string)
    ensures |r| == |s|
    ensures forall i :: 0 <= i < |s| ==> r[i] == LowerChar(s[i])
  {
    if s == [] then [] else [LowerChar(s[0])] + ToLower(s[1..])
  }

  function LowerChar(c: char): char {
    if 'A' <= c <= 'Z' then (c as int + 32) as char else c
  }

  /** Case-insensitive comparison is an equivalence: it is reflexive, symmetric
      and transitive because both sides go through the same normal form. */
  predicate SameIgnoringCase(a: string, b: string) {
    ToLower(a) == ToLower(b)
  }
}
