/** The string conversions the shape report and the loader rely on:
    `str` of a non-negative integer, `", ".join` of column names, and `str.endswith`. */
module Text {

  predicate IsDigit(c: char) { '0' <= c <= '9' }

  predicate AllDigits(s: string) { forall i :: 0 <= i < |s| ==> IsDigit(s[i]) }

  function DigitChar(d: nat): (c: char)
    requires d < 10
    ensures IsDigit(c) && DigitValue(c) == d
  {
    (48 + d) as char
  }

  function DigitValue(c: char): nat
    requires IsDigit(c)
  {
    c as int - 48
  }

  /** Python's `str(n)` for a non-negative integer: decimal digits, no leading zero. */
  function Decimal(n: nat): (s: string)
    ensures |s| > 0 && AllDigits(s)
    ensures s[0] == '0' <==> n == 0
    ensures s[0] == '0' ==> |s| == 1
  {
    if n < 10 then [DigitChar(n)] else Decimal(n / 10) + [DigitChar(n % 10)]
  }

  /** Reads a string of decimal digits back as a number (Python's `int` on such a string). */
  function ParseDecimal(s: string): nat
    requires AllDigits(s)
  {
    if s == [] then 0 else 10 * ParseDecimal(s[..|s| - 1]) + DigitValue(s[|s| - 1])
  }

  lemma {:induction false} ParseDecimalOfDecimal(n: nat)
    ensures ParseDecimal(Decimal(n)) == n
  {
    if n >= 10 {
      var s := Decimal(n / 10);
      var t := s + [DigitChar(n % 10)];
      assert t == Decimal(n);
      assert t[..|t| - 1] == s;
      ParseDecimalOfDecimal(n / 10);
    }
  }

  const Separator: string := ", "

  /** `", ".join(names)`. */
  function JoinNames(names: seq<string>): (s: string)
    ensures |names| == 1 ==> s == names[0]
  {
    if |names| == 0 then ""
    else if |names| == 1 then names[0]
    else names[0] + Separator + JoinNames(names[1..])
  }

  /** The index of the first comma of `s`, or `|s|` when there is none. */
  function FirstComma(s: string): (k: nat)
    ensures k <= |s|
    ensures k < |s| ==> s[k] == ','
    ensures forall j :: 0 <= j < k ==> s[j] != ','
  {
    if s == [] then 0 else if s[0] == ',' then 0 else 1 + FirstComma(s[1..])
  }

  /** Splits a joined name list at each ", " (the inverse of JoinNames). */
  function SplitNames(s: string): (parts: seq<string>)
    ensures |parts| > 0
    decreases |s|
  {
    var k := FirstComma(s);
    if k == |s| then [s]
    else [s[..k]] + SplitNames(s[if k + 2 <= |s| then k + 2 else |s|..])
  }

  predicate CommaFree(name: string) { forall j :: 0 <= j < |name| ==> name[j] != ',' }

  /** Splitting the joined names gives the names back, provided there is at least one
      name and no name itself contains a comma. */
  lemma {:induction false} SplitJoinNames(names: seq<string>)
    requires |names| > 0
    requires forall i :: 0 <= i < |names| ==> CommaFree(names[i])
    ensures SplitNames(JoinNames(names)) == names
  {
    var s := JoinNames(names);
    var a := names[0];
    if |names| == 1 {
      assert FirstComma(s) == |s|;
    } else {
      var rest := JoinNames(names[1..]);
      assert s == a + Separator + rest;
      assert s[|a|] == ',';
      var k := FirstComma(s);
      assert forall j :: 0 <= j < |a| ==> s[j] == a[j];
      assert k == |a|;
      assert s[..k] == a;
      assert s[k + 2..] == rest;
      SplitJoinNames(names[1..]);
      assert names == [a] + names[1..];
    }
  }

  /** Python's `s.endswith(suffix)`: case-sensitive, on the whole string. */
  predicate EndsWith(s: string, suffix: string) {
    |suffix| <= |s| && s[|s| - |suffix|..] == suffix
  }
}
