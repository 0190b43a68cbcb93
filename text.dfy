/** Text helpers the monitor's views and messages rely on: lower-casing,
    substring search, and rendering an integer in decimal as a JavaScript
    template literal does. */
module Text {

  /** Lower-cases one character; only the ASCII letters A-Z are mapped. */
  function LowerChar(c: char): (r: char)
    ensures 'A' <= c <= 'Z' ==> 'a' <= r <= 'z' && r as int - c as int == 32
    ensures !('A' <= c <= 'Z') ==> r == c
  {
    if 'A' <= c <= 'Z' then (c as int + 32) as char else c
  }

  /** String.prototype.toLowerCase, restricted to ASCII letters. */
  function ToLower(s: string): (r: string)
    ensures |r| == |s|
    ensures forall i :: 0 <= i < |s| ==> r[i] == LowerChar(s[i])
  {
    if s == [] then [] else [LowerChar(s[0])] + ToLower(s[1..])
  }

  /** The string has no upper-case ASCII letter. */
  predicate IsLower(s: string) {
    forall i :: 0 <= i < |s| ==> !('A' <= s[i] <= 'Z')
  }

  lemma ToLowerIsLower(s: string)
    ensures IsLower(ToLower(s))
  {
  }

  /** Lower-casing an already lower-cased string changes nothing. */
  lemma ToLowerIdempotent(s: string)
    ensures ToLower(ToLower(s)) == ToLower(s)
  {
    var t := ToLower(s);
    assert |ToLower(t)| == |t|;
    forall i | 0 <= i < |t| ensures ToLower(t)[i] == t[i] {
      assert LowerChar(t[i]) == t[i];
    }
  }

  predicate IsPrefix(p: string, s: string) {
    |p| <= |s| && s[..|p|] == p
  }

  /** `needle` occurs in `hay` starting at index `i`. */
  predicate OccursAt(hay: string, needle: string, i: int) {
    0 <= i <= |hay| - |needle| && hay[i..i + |needle|] == needle
  }

  /** String.prototype.includes: `needle` occurs somewhere inside `hay`. */
  function Includes(hay: string, needle: string): (r: bool)
    ensures r <==> exists i :: OccursAt(hay, needle, i)
    decreases |hay|
  {
    if IsPrefix(needle, hay) then
      assert OccursAt(hay, needle, 0);
      true
    else if |hay| <= |needle| then
      assert forall i :: OccursAt(hay, needle, i) ==> i == 0;
      false
    else
      OccursLater(hay, needle);
      Includes(hay[1..], needle)
  }

  /** Past a failed first position, `needle` occurs in `hay` exactly when it
      occurs in the rest of `hay`. */
  lemma OccursLater(hay: string, needle: string)
    requires |hay| > 0 && !IsPrefix(needle, hay)
    ensures (exists i :: OccursAt(hay, needle, i)) <==> (exists j :: OccursAt(hay[1..], needle, j))
  {
    forall i | OccursAt(hay, needle, i) ensures OccursAt(hay[1..], needle, i - 1) {
      assert i != 0;
      assert hay[1..][i - 1..i - 1 + |needle|] == hay[i..i + |needle|];
    }
    forall j | OccursAt(hay[1..], needle, j) ensures OccursAt(hay, needle, j + 1) {
      assert hay[1..][j..j + |needle|] == hay[j + 1..j + 1 + |needle|];
    }
  }

  /** Every string contains the empty string. */
  lemma IncludesEmpty(hay: string)
    ensures Includes(hay, "")
  {
    assert OccursAt(hay, "", 0);
  }

  /** A string contains itself surrounded by anything. */
  lemma IncludesMiddle(a: string, b: string, c: string)
    ensures Includes(a + b + c, b)
  {
    assert (a + b + c)[|a|..|a| + |b|] == b;
    assert OccursAt(a + b + c, b, |a|);
  }

  function DigitChar(d: nat): (r: char)
    requires d < 10
    ensures '0' <= r <= '9' && r as int - '0' as int == d
  {
    "0123456789"[d]
  }

  function DigitValue(c: char): (d: nat)
    requires '0' <= c <= '9'
    ensures d < 10
  {
    c as int - '0' as int
  }

  predicate AllDigits(s: string) {
    forall i :: 0 <= i < |s| ==> '0' <= s[i] <= '9'
  }

  /** The number a string of decimal digits denotes (read from its last digit). */
  function DecimalValue(s: string): nat
    requires AllDigits(s)
  {
    if s == [] then 0 else 10 * DecimalValue(s[..|s| - 1]) + DigitValue(s[|s| - 1])
  }

  /** The decimal rendering of a natural number: digits only, no leading zero,
      and reading it back gives the number. */
  function NatToString(n: nat): (r: string)
    ensures |r| >= 1 && AllDigits(r)
    ensures r[0] == '0' ==> r == "0"
    ensures DecimalValue(r) == n
  {
    if n < 10 then
      [DigitChar(n)]
    else
      var front := NatToString(n / 10);
      var last := DigitChar(n % 10);
      var r := front + [last];
      assert r[..|r| - 1] == front && r[|r| - 1] == last;
      assert DecimalValue(r) == 10 * (n / 10) + n % 10;
      r
  }

  /** An integer in decimal, as `${n}` renders it: a minus sign before negatives. */
  function IntToString(n: int): (r: string)
    ensures n >= 0 ==> r == NatToString(n)
    ensures n < 0 ==> r == "-" + NatToString(-n)
  {
    if n >= 0 then NatToString(n) else "-" + NatToString(-n)
  }

  /** Decimal rendering is injective: different numbers render differently. */
  lemma IntToStringInjective(m: int, n: int)
    requires IntToString(m) == IntToString(n)
    ensures m == n
  {
    var rm, rn := IntToString(m), IntToString(n);
    if m >= 0 && n >= 0 {
      assert DecimalValue(NatToString(m)) == m;
    } else if m < 0 && n < 0 {
      assert rm[1..] == NatToString(-m) && rn[1..] == NatToString(-n);
    } else {
      assert false;
    }
  }
}
