/**
  Decimal text of integers, as the app produces it with template literals
  (`${n}`) and reads it back with `Number(...)` and `parseInt(...)`.
 */
module Numerals {
  import opened Wrappers

  predicate IsDigit(c: char) {
    '0' <= c <= '9'
  }

  predicate AllDigits(s: string) {
    forall i :: 0 <= i < |s| ==> IsDigit(s[i])
  }

  function DigitChar(d: nat): (c: char)
    requires d < 10
    ensures IsDigit(c) && c as int - '0' as int == d
  {
    ('0' as int + d) as char
  }

  function DigitValue(c: char): nat
    requires IsDigit(c)
  {
    c as int - '0' as int
  }

  /** The decimal text of a natural number: what `${n}` gives for n >= 0. */
  function NatToString(n: nat): (s: string)
    ensures |s| >= 1 && AllDigits(s)
    ensures n >= 1 ==> s[0] != '0'
    ensures n < 10 <==> |s| == 1
  {
    if n < 10 then [DigitChar(n)] else NatToString(n / 10) + [DigitChar(n % 10)]
  }

  /** What `${i}` gives for any integer i (a leading '-' for negatives). */
  function IntToString(i: int): string {
    if i < 0 then "-" + NatToString(-i) else NatToString(i)
  }

  /** The value of a string of decimal digits, leading zeros allowed. */
  function DigitsValue(s: string): nat
    requires AllDigits(s)
  {
    if |s| == 0 then 0 else DigitsValue(s[..|s| - 1]) * 10 + DigitValue(s[|s| - 1])
  }

  /** Reading back the text of a natural number gives that number. */
  lemma {:induction false} NatToStringRoundTrip(n: nat)
    ensures DigitsValue(NatToString(n)) == n
  {
    if n >= 10 {
      var s := NatToString(n);
      assert s[..|s| - 1] == NatToString(n / 10);
      NatToStringRoundTrip(n / 10);
    }
  }

  /** The maximal leading run of digits of s, and what follows it. */
  function DigitPrefix(s: string): (r: (string, string))
    ensures r.0 + r.1 == s
    ensures AllDigits(r.0)
    ensures r.1 == [] || !IsDigit(r.1[0])
  {
    if |s| > 0 && IsDigit(s[0]) then
      var (ds, rest) := DigitPrefix(s[1..]);
      DigitsCons(s[0], ds);
      assert s == [s[0]] + s[1..];
      ([s[0]] + ds, rest)
    else
      ([], s)
  }

  lemma DigitsCons(c: char, ds: string)
    requires IsDigit(c) && AllDigits(ds)
    ensures AllDigits([c] + ds)
  {
    forall i | 0 < i < |[c] + ds| ensures IsDigit(([c] + ds)[i]) {
      assert ([c] + ds)[i] == ds[i - 1];
    }
  }

  /** The split into leading digits and the rest is unique, so any such split is DigitPrefix's. */
  lemma {:induction false} DigitPrefixOf(u: string, t: string)
    requires AllDigits(u)
    requires t == [] || !IsDigit(t[0])
    ensures DigitPrefix(u + t) == (u, t)
  {
    if |u| > 0 {
      assert (u + t)[1..] == u[1..] + t;
      DigitPrefixOf(u[1..], t);
      assert [u[0]] + u[1..] == u;
    } else {
      assert u + t == t;
    }
  }

  /**
    ECMAScript's Number(text) for the texts this model produces: the empty text
    is 0 and a run of decimal digits is its value. None stands for NaN and
    for every other form, which is not modelled.
   */
  function StringToNumber(s: string): Option<int> {
    if |s| == 0 then Some(0)
    else if AllDigits(s) then Some(DigitsValue(s))
    else None
  }

  /** parseInt(text): the value of the leading digits, None (NaN) when there are none. */
  function ParseIntPrefix(s: string): Option<int> {
    var (ds, _) := DigitPrefix(s);
    if |ds| == 0 then None else Some(DigitsValue(ds))
  }

  /**
    The characters parseInt skips before the number: white space and line
    terminators as sections 11.2 and 11.3 of ECMA-262 (10th edition) define
    them. These are tab, vertical tab, form feed, space, no-break space, the byte
    order mark, line feed, carriage return, the line and paragraph separators,
    and the space separators of category Zs.
   */
  predicate IsJsWhiteSpace(c: char) {
    || c == '\t' || c == '\U{000B}' || c == '\U{000C}' || c == ' ' || c == '\U{00A0}' || c == '\U{FEFF}'
    || c == '\n' || c == '\r' || c == '\U{2028}' || c == '\U{2029}'
    || c == '\U{1680}' || ('\U{2000}' <= c <= '\U{200A}') || c == '\U{202F}' || c == '\U{205F}' || c == '\U{3000}'
  }

  /** Number.MAX_SAFE_INTEGER: integers up to it are exact as JavaScript numbers. */
  const MaxSafeInteger: int := 9007199254740991

  /** What `${v}` gives for the result of Number or parseInt. */
  function NumberText(v: Option<int>): string {
    match v
    case Some(i) => IntToString(i)
    case None => "NaN"
  }

  /**
    The app's zero padding `${n < 10 ? '0' + n : n}`. For 0 <= n < 100 it is
    exactly two digits, and both Number and parseInt read n back from it.
   */
  function Pad2(n: int): (s: string)
    ensures 0 <= n < 100 ==> |s| == 2
    ensures n >= 0 ==> AllDigits(s) && StringToNumber(s) == Some(n) && ParseIntPrefix(s) == Some(n)
  {
    if n < 10 then
      if n >= 0 then PadSingleDigit(n); "0" + IntToString(n)
      else "0" + IntToString(n)
    else
      NatToStringRoundTrip(n);
      DigitPrefixOf(NatToString(n), []);
      assert NatToString(n) + [] == NatToString(n);
      NatToString(n)
  }

  /** Any two-digit text is the padding of its own value, so the padding is the only two-digit form. */
  lemma TwoDigitsArePad2(t: string)
    requires |t| == 2 && AllDigits(t)
    ensures DigitsValue(t) < 100 && Pad2(DigitsValue(t)) == t
  {
    var a, b := DigitValue(t[0]), DigitValue(t[1]);
    assert t[..1] == [t[0]] && [t[0]][..0] == [];
    assert DigitsValue([t[0]]) == a;
    var v := DigitsValue(t);
    assert v == 10 * a + b;
    assert DigitChar(b) == t[1];
    assert t == [t[0], t[1]];
    if a == 0 {
      assert t[0] == '0';
      assert Pad2(v) == "0" + [DigitChar(b)];
    } else {
      assert v / 10 == a && v % 10 == b;
      assert DigitChar(a) == t[0];
      assert NatToString(v) == NatToString(a) + [DigitChar(b)];
    }
  }

  lemma PadSingleDigit(n: nat)
    requires n < 10
    ensures var s := "0" + IntToString(n);
      AllDigits(s) && StringToNumber(s) == Some(n) && ParseIntPrefix(s) == Some(n)
  {
    var s := "0" + IntToString(n);
    assert s == ['0', DigitChar(n)];
    assert s[..1] == "0";
    assert DigitsValue("0") == 0 by {
      assert "0"[..0] == [];
    }
    assert DigitsValue(s) == n;
    DigitPrefixOf(s, []);
    assert s + [] == s;
  }
}
