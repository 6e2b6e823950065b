/** String primitives the source takes from its languages' runtimes: whitespace classes,
    trimming, ASCII case folding, substring search and decimal digits. */
module Text {
  import opened Wrappers

  /** The characters JavaScript's `\s` and `String.prototype.trim` treat as white space
      (WhiteSpace and LineTerminator of ECMA-262). */
  predicate IsJsSpace(c: char) {
    var u := c as int;
    (0x09 <= u <= 0x0D) || u == 0x20 || u == 0xA0 || u == 0x1680 || (0x2000 <= u <= 0x200A)
    || u == 0x2028 || u == 0x2029 || u == 0x202F || u == 0x205F || u == 0x3000 || u == 0xFEFF
  }

  /** The characters Python's `str.isspace` accepts, which `str.strip()` removes. */
  predicate IsPySpace(c: char) {
    var u := c as int;
    (0x09 <= u <= 0x0D) || (0x1C <= u <= 0x20) || u == 0x85 || u == 0xA0 || u == 0x1680
    || (0x2000 <= u <= 0x200A) || u == 0x2028 || u == 0x2029 || u == 0x202F || u == 0x205F
    || u == 0x3000
  }

  /** The ASCII digits, which JavaScript's `\d` and the `[^0-9]` class name. */
  predicate IsDigit(c: char) {
    '0' <= c <= '9'
  }

  /** Drops the longest prefix whose characters satisfy `space`. */
  function TrimStart(s: string, space: char -> bool): (r: string)
    ensures |r| <= |s| && r == s[|s| - |r|..]
    ensures forall k :: 0 <= k < |s| - |r| ==> space(s[k])
    ensures r == [] || !space(r[0])
    decreases |s|
  {
    if s != [] && space(s[0]) then TrimStart(s[1..], space) else s
  }

  /** Drops the longest suffix whose characters satisfy `space`. */
  function TrimEnd(s: string, space: char -> bool): (r: string)
    ensures |r| <= |s| && r == s[..|r|]
    ensures forall k :: |r| <= k < |s| ==> space(s[k])
    ensures r == [] || !space(r[|r| - 1])
    decreases |s|
  {
    if s != [] && space(s[|s| - 1]) then TrimEnd(s[..|s| - 1], space) else s
  }

  /** `String.prototype.trim`. */
  function TrimJs(s: string): string {
    TrimEnd(TrimStart(s, IsJsSpace), IsJsSpace)
  }

  /** Python's `str.strip()` with no argument: white space is dropped from the front, then
      from the back. */
  function StripPy(s: string): string
    decreases |s|
  {
    if s != [] && IsPySpace(s[0]) then StripPy(s[1..])
    else if s != [] && IsPySpace(s[|s| - 1]) then StripPy(s[..|s| - 1])
    else s
  }

  /** The stripped text is a piece of the original with no white space at either end. */
  lemma {:induction false} StripPyTrimmed(s: string)
    ensures var r := StripPy(s);
            && (r == [] || (!IsPySpace(r[0]) && !IsPySpace(r[|r| - 1])))
            && exists i: nat :: OccursAt(s, r, i)
    decreases |s|
  {
    var r := StripPy(s);
    if s != [] && IsPySpace(s[0]) {
      StripPyTrimmed(s[1..]);
      var i: nat :| OccursAt(s[1..], r, i);
      OccursInTail(s, r, i);
    } else if s != [] && IsPySpace(s[|s| - 1]) {
      StripPyTrimmed(s[..|s| - 1]);
      var i: nat :| OccursAt(s[..|s| - 1], r, i);
      OccursInInit(s, r, i);
    } else {
      assert OccursAt(s, r, 0) by { assert s[0..|s|] == s; }
    }
  }

  lemma OccursInTail(s: string, pat: string, i: nat)
    requires s != [] && OccursAt(s[1..], pat, i)
    ensures OccursAt(s, pat, i + 1)
  {
    assert s[i + 1..i + 1 + |pat|] == s[1..][i..i + |pat|];
  }

  lemma OccursInInit(s: string, pat: string, i: nat)
    requires s != [] && OccursAt(s[..|s| - 1], pat, i)
    ensures OccursAt(s, pat, i)
  {
    assert s[i..i + |pat|] == s[..|s| - 1][i..i + |pat|];
  }

  /** Case folding of the ASCII letters only; every other character is kept. */
  function LowerChar(c: char): char {
    if 'A' <= c <= 'Z' then (c as int + 32) as char else c
  }

  function Lower(s: string): (r: string)
    ensures |r| == |s|
    ensures forall k :: 0 <= k < |s| ==> r[k] == LowerChar(s[k])
  {
    seq(|s|, k requires 0 <= k < |s| => LowerChar(s[k]))
  }

  /** `pat` occurs in `s` starting at position `i`. */
  predicate OccursAt(s: string, pat: string, i: nat) {
    i + |pat| <= |s| && s[i..i + |pat|] == pat
  }

  /** The first position at or after `from` where `pat` occurs, as `String.prototype.indexOf`
      and `str.find` report it (an empty pattern occurs at `from` whenever `from <= |s|`). */
  function IndexFrom(s: string, pat: string, from: nat): (r: Option<nat>)
    ensures r.Some? ==> from <= r.value && OccursAt(s, pat, r.value)
    ensures r.Some? ==> forall j :: from <= j < r.value ==> !OccursAt(s, pat, j)
    ensures r.None? ==> forall j :: from <= j ==> !OccursAt(s, pat, j)
    decreases |s| - from
  {
    if from + |pat| > |s| then None
    else if OccursAt(s, pat, from) then Some(from)
    else IndexFrom(s, pat, from + 1)
  }

  function IndexOf(s: string, pat: string): Option<nat> {
    IndexFrom(s, pat, 0)
  }

  /** `s.includes(pat)` / `pat in s`. */
  predicate Contains(s: string, pat: string) {
    IndexOf(s, pat).Some?
  }

  lemma ContainsIff(s: string, pat: string)
    ensures Contains(s, pat) <==> exists i: nat :: OccursAt(s, pat, i)
  {
  }

  /** The empty pattern occurs in every string, at position 0. */
  lemma EmptyOccurs(s: string)
    ensures IndexOf(s, "") == Some(0)
  {
    assert OccursAt(s, "", 0);
  }

  function DigitValue(c: char): (d: nat)
    requires IsDigit(c)
    ensures d < 10
  {
    c as int - '0' as int
  }

  /** The value of a run of decimal digits, as `parseInt(digits, 10)` reads it. */
  function DigitsValue(s: string): nat
    requires forall k :: 0 <= k < |s| ==> IsDigit(s[k])
    decreases |s|
  {
    if s == [] then 0 else 10 * DigitsValue(s[..|s| - 1]) + DigitValue(s[|s| - 1])
  }

  /** Decimal rendering of a natural number, as a template literal shows it. */
  function NatToString(n: nat): (r: string)
    ensures |r| >= 1
    ensures forall k :: 0 <= k < |r| ==> IsDigit(r[k])
    decreases n
  {
    var d := [('0' as int + n % 10) as char];
    if n < 10 then d else NatToString(n / 10) + d
  }

  lemma {:induction false} NatToStringRoundTrip(n: nat)
    ensures DigitsValue(NatToString(n)) == n
    decreases n
  {
    var r := NatToString(n);
    if n >= 10 {
      NatToStringRoundTrip(n / 10);
      assert r[..|r| - 1] == NatToString(n / 10);
    }
  }

  function IntToString(i: int): string {
    if i < 0 then "-" + NatToString(-i) else NatToString(i)
  }
}
