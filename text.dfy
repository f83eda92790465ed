/**
 * The JavaScript string operations the dashboard relies on: `toLowerCase`,
 * `includes`, `trim`, `Number.prototype.toString` on integers and `Number(...)`
 * on decimal numerals.
 */
module Text {

  /** `toLowerCase` restricted to ASCII letters. */
  function LowerChar(c: char): char {
    if 'A' <= c <= 'Z' then (c as int + 32) as char else c
  }

  function Lower(s: string): string {
    seq(|s|, i requires 0 <= i < |s| => LowerChar(s[i]))
  }

  /** `needle` occurs at some position of `hay` (the meaning of `hay.includes(needle)`). */
  ghost predicate OccursIn(needle: string, hay: string) {
    exists i :: OccursAt(needle, hay, i)
  }

  predicate OccursAt(needle: string, hay: string, i: int) {
    0 <= i && i + |needle| <= |hay| && hay[i..i + |needle|] == needle
  }

  /** `hay.includes(needle)`, scanning start positions from the left. */
  function Includes(hay: string, needle: string): bool
    decreases |hay|
  {
    if |needle| > |hay| then false
    else if hay[..|needle|] == needle then true
    else Includes(hay[1..], needle)
  }

  lemma {:induction false} IncludesMeansOccurs(hay: string, needle: string)
    ensures Includes(hay, needle) <==> OccursIn(needle, hay)
    decreases |hay|
  {
    if |needle| > |hay| {
    } else if hay[..|needle|] == needle {
      assert OccursAt(needle, hay, 0);
    } else {
      IncludesMeansOccurs(hay[1..], needle);
      if OccursIn(needle, hay[1..]) {
        var i :| OccursAt(needle, hay[1..], i);
        OccursShift(needle, hay, i);
      }
      if OccursIn(needle, hay) {
        var i :| OccursAt(needle, hay, i);
        assert i != 0;
        OccursShift(needle, hay, i - 1);
      }
    }
  }

  /** An occurrence in the tail of `hay` is an occurrence one position later in `hay`. */
  lemma OccursShift(needle: string, hay: string, i: int)
    requires hay != [] && 0 <= i
    ensures OccursAt(needle, hay[1..], i) <==> OccursAt(needle, hay, i + 1)
  {
    if i + |needle| <= |hay[1..]| {
      assert hay[1..][i..i + |needle|] == hay[i + 1..i + 1 + |needle|];
    }
  }

  /** The empty string occurs in every string. */
  lemma EmptyIncluded(hay: string)
    ensures Includes(hay, "")
  {
    assert hay[..0] == "";
  }


  /** The characters `String.prototype.trim` removes: WhiteSpace and LineTerminator of ECMA-262. */
  predicate IsJsWhitespace(c: char) {
    c == '\t' || c == '\n' || c == '\U{B}' || c == '\U{C}' || c == '\r' || c == ' ' ||
    c == '\U{A0}' || c == '\U{1680}' || ('\U{2000}' <= c <= '\U{200A}') ||
    c == '\U{2028}' || c == '\U{2029}' || c == '\U{202F}' || c == '\U{205F}' ||
    c == '\U{3000}' || c == '\U{FEFF}'
  }

  /** Every character of `s` is white space (so `s.trim()` is empty and falsy). */
  predicate IsBlank(s: string) {
    forall k :: 0 <= k < |s| ==> IsJsWhitespace(s[k])
  }

  function TrimStart(s: string): string {
    if s != [] && IsJsWhitespace(s[0]) then TrimStart(s[1..]) else s
  }

  function TrimEnd(s: string): string {
    if s != [] && IsJsWhitespace(s[|s| - 1]) then TrimEnd(s[..|s| - 1]) else s
  }

  /** `s.trim()`. */
  function Trim(s: string): string {
    TrimEnd(TrimStart(s))
  }

  /** `s[i..]` is what is left of `s` after a blank prefix. */
  predicate BlankPrefixDropped(s: string, i: int) {
    0 <= i <= |s| && IsBlank(s[..i])
  }

  /** `s[..j]` is what is left of `s` after a blank suffix. */
  predicate BlankSuffixDropped(s: string, j: int) {
    0 <= j <= |s| && IsBlank(s[j..])
  }

  lemma {:induction false} TrimStartShape(s: string) returns (i: int)
    ensures BlankPrefixDropped(s, i) && TrimStart(s) == s[i..]
    ensures TrimStart(s) == [] || !IsJsWhitespace(TrimStart(s)[0])
  {
    if s != [] && IsJsWhitespace(s[0]) {
      var i' := TrimStartShape(s[1..]);
      i := i' + 1;
      assert TrimStart(s) == s[i..];
      assert IsBlank(s[..i]) by {
        forall k | 0 <= k < i ensures IsJsWhitespace(s[k]) {
          if k > 0 { assert s[k] == s[1..][..i'][k - 1]; }
        }
      }
    } else {
      i := 0;
      assert TrimStart(s) == s[0..];
    }
  }

  lemma {:induction false} TrimEndShape(s: string) returns (j: int)
    ensures BlankSuffixDropped(s, j) && TrimEnd(s) == s[..j]
    ensures TrimEnd(s) == [] || !IsJsWhitespace(TrimEnd(s)[|TrimEnd(s)| - 1])
  {
    if s != [] && IsJsWhitespace(s[|s| - 1]) {
      var p := s[..|s| - 1];
      j := TrimEndShape(p);
      assert TrimEnd(s) == s[..j];
      assert IsBlank(s[j..]) by {
        forall k | 0 <= k < |s| - j ensures IsJsWhitespace(s[j..][k]) {
          if j + k < |s| - 1 { assert s[j..][k] == p[j..][k]; }
        }
      }
    } else {
      j := |s|;
      assert TrimEnd(s) == s[..|s|];
    }
  }

  /**
   * `s.trim()` is the middle of `s`: it drops a blank prefix and a blank
   * suffix and keeps no white space at either end.
   */
  lemma TrimShape(s: string) returns (i: int, j: int)
    ensures 0 <= i <= j <= |s| && Trim(s) == s[i..j] && IsBlank(s[..i]) && IsBlank(s[j..])
    ensures Trim(s) == [] || (!IsJsWhitespace(Trim(s)[0]) && !IsJsWhitespace(Trim(s)[|Trim(s)| - 1]))
  {
    i := TrimStartShape(s);
    var t := TrimStart(s);
    var m := TrimEndShape(t);
    j := i + m;
    assert t[..m] == s[i..j];
    assert t[m..] == s[j..];
    if Trim(s) != [] {
      assert Trim(s)[0] == t[0];
    }
  }

  /** `s.trim()` is empty exactly when `s` is blank: the test `if (!s.trim())`. */
  lemma TrimEmptyIffBlank(s: string)
    ensures Trim(s) == [] <==> IsBlank(s)
  {
    var i, j := TrimShape(s);
    if Trim(s) == [] {
      forall k | 0 <= k < |s| ensures IsJsWhitespace(s[k]) {
        if k < i { assert s[k] == s[..i][k]; } else { assert s[k] == s[j..][k - j]; }
      }
    } else {
      assert !IsJsWhitespace(s[i]);
    }
  }

  function DigitChar(d: nat): char
    requires d < 10
  {
    ('0' as int + d) as char
  }

  predicate IsDigit(c: char) {
    '0' <= c <= '9'
  }

  /** The decimal digits of a natural number, without leading zeros. */
  function NatToString(n: nat): string
  {
    if n < 10 then [DigitChar(n)] else NatToString(n / 10) + [DigitChar(n % 10)]
  }

  /** `n.toString()` for an integer-valued JavaScript number. */
  function IntToString(n: int): string {
    if n < 0 then "-" + NatToString(-n) else NatToString(n)
  }

  /** A string `Number(...)` reads as an integer: an optional minus sign and at least one digit. */
  predicate IsNumeral(s: string) {
    Magnitude(s) != [] && AllDigits(Magnitude(s))
  }

  /** The numeral without its sign. */
  function Magnitude(s: string): string {
    if s != [] && s[0] == '-' then s[1..] else s
  }

  predicate AllDigits(s: string) {
    forall k :: 0 <= k < |s| ==> IsDigit(s[k])
  }

  function DigitsValue(s: string): nat
    requires AllDigits(s)
  {
    if s == [] then 0
    else
      var d := s[|s| - 1];
      assert IsDigit(d);
      10 * DigitsValue(s[..|s| - 1]) + (d as int - '0' as int)
  }

  /** `Number(s)` for a decimal numeral (a `-0` is read as 0). */
  function NumberOf(s: string): int
    requires IsNumeral(s)
  {
    if s[0] == '-' then -(DigitsValue(Magnitude(s)) as int) else DigitsValue(s)
  }

  lemma {:induction false} NatToStringDigits(n: nat)
    ensures NatToString(n) != [] && NatToString(n)[0] != '-'
    ensures AllDigits(NatToString(n))
    ensures DigitsValue(NatToString(n)) == n
  {
    if n >= 10 {
      NatToStringDigits(n / 10);
      var s := NatToString(n);
      assert s[..|s| - 1] == NatToString(n / 10);
    }
  }

  /** `Number(n.toString()) === n`: the form's course field survives the string round trip. */
  lemma IntToStringRoundTrip(n: int)
    ensures IsNumeral(IntToString(n))
    ensures NumberOf(IntToString(n)) == n
  {
    if n < 0 {
      NatToStringDigits(-n);
      assert Magnitude(IntToString(n)) == NatToString(-n);
    } else {
      NatToStringDigits(n);
    }
  }

  /** Two integers print alike only if they are equal. */
  lemma IntToStringInjective(m: int, n: int)
    ensures IntToString(m) == IntToString(n) <==> m == n
  {
    IntToStringRoundTrip(m);
    IntToStringRoundTrip(n);
  }
}
