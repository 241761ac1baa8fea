/**
 * Base-10 and base-16 numerals as Python's `int(s)` and `int(s, 16)` read
 * them, restricted to strings of plain digits, and the inverse formatting.
 */
module Numerals {
  import opened Text

  /** Value of one digit, either case for the letters `a`-`f`. */
  function DigitValue(c: char): (d: nat)
    requires IsHexDigit(c)
    ensures d < 16
    ensures IsDigit(c) <==> d < 10
  {
    if IsDigit(c) then c as int - '0' as int
    else if 'a' <= c <= 'f' then c as int - 'a' as int + 10
    else c as int - 'A' as int + 10
  }

  function Pow(b: nat, e: nat): (p: nat)
    requires b >= 1
    ensures p >= 1
  {
    if e == 0 then 1 else b * Pow(b, e - 1)
  }

  /** Value of a numeral in base `b` (10 or 16), most significant digit first. */
  function Value(s: string, b: nat): (v: nat)
    requires b == 10 || b == 16
    requires AllIn(s, if b == 10 then Digit else HexDigit)
    ensures v < Pow(b, |s|)
  {
    if s == [] then 0
    else
      var h := Value(s[..|s| - 1], b);
      var d := DigitValue(s[|s| - 1]);
      assert d <= b - 1;
      assert h <= Pow(b, |s| - 1) - 1;
      assert h * b <= (Pow(b, |s| - 1) - 1) * b;
      h * b + d
  }

  /** A two-digit numeral is its high digit times the base plus its low digit. */
  lemma ValueOfTwo(s: string, b: nat)
    requires b == 10 || b == 16
    requires AllIn(s, if b == 10 then Digit else HexDigit) && |s| == 2
    ensures Value(s, b) == b * DigitValue(s[0]) + DigitValue(s[1])
  {
    assert s[..1][..0] == [];
  }

  /** The lower-case hexadecimal digit for a value below 16. */
  function HexChar(d: nat): (c: char)
    requires d < 16
    ensures IsHexDigit(c) && DigitValue(c) == d
    ensures !('A' <= c <= 'F')
  {
    if d < 10 then ('0' as int + d) as char else ('a' as int + d - 10) as char
  }

  /** The shortest decimal numeral of `n`, as OpenSCAD prints a vertex index. */
  function Decimal(n: nat): (s: string)
    ensures s != [] && AllIn(s, Digit)
    ensures Value(s, 10) == n
  {
    if n < 10 then [HexChar(n)]
    else
      var s := Decimal(n / 10) + [HexChar(n % 10)];
      assert s[..|s| - 1] == Decimal(n / 10);
      s
  }

  /** Upper-case letters map to lower case; every other character is kept. */
  function ToLower(c: char): char {
    if 'A' <= c <= 'Z' then (c as int - 'A' as int + 'a' as int) as char else c
  }

  function LowerCase(s: string): (r: string)
    ensures |r| == |s| && forall i | 0 <= i < |s| :: r[i] == ToLower(s[i])
  {
    seq(|s|, i requires 0 <= i < |s| => ToLower(s[i]))
  }

  /** Letter case does not change the value of a hexadecimal numeral. */
  lemma {:induction false} ValueIgnoresCase(s: string)
    requires AllIn(s, HexDigit)
    ensures AllIn(LowerCase(s), HexDigit)
    ensures Value(LowerCase(s), 16) == Value(s, 16)
  {
    if s != [] {
      var t := LowerCase(s);
      assert t[..|t| - 1] == LowerCase(s[..|s| - 1]);
      ValueIgnoresCase(s[..|s| - 1]);
    }
  }
}
