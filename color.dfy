/**
 * `hex_to_rgb` from iconhedra.py: strip the leading `#` characters of a
 * colour and read the slices `[0:2]`, `[2:4]` and `[4:6]` of the rest as
 * base-16 numbers.
 */
module Color {
  import opened Wrappers
  import opened Text
  import opened Numerals

  datatype Rgb = Rgb(red: nat, green: nat, blue: nat)

  /** `int('', 16)` raises ValueError: the component whose slice was empty. */
  datatype ColorError = EmptyComponent(index: nat)

  predicate IsByte(n: nat) { n < 256 }

  /** `hex_color.lstrip('#')`: the colour without its leading `#`s, and nothing else removed. */
  function Digits(color: string): (r: string)
    ensures |r| <= |color| && r == color[|color| - |r|..]
    ensures forall i | 0 <= i < |color| - |r| :: color[i] == '#'
    ensures r == [] || r[0] != '#'
  {
    StripLeft(color, {'#'})
  }

  /** Python's clamped slice `s[i:j]`. */
  function Slice(s: string, i: nat, j: nat): (r: string)
    requires i <= j
    ensures |r| <= j - i
    ensures forall t | 0 <= t < |r| :: i + t < |s| && r[t] == s[i + t]
    ensures j <= |s| ==> |r| == j - i
    ensures i < |s| && i < j ==> r != []
    ensures i >= |s| ==> r == []
    ensures i < |s| ==> |r| == (if j <= |s| then j else |s|) - i
  {
    if i >= |s| then [] else s[i..if j <= |s| then j else |s|]
  }

  /** `int(hex_color[2k:2k+2], 16)` for component `k`. */
  function Component(digits: string, k: nat): (r: Result<nat, ColorError>)
    requires AllIn(digits, HexDigit)
    ensures r.Ok? <==> 2 * k < |digits|
    ensures r.Ok? ==> IsByte(r.value)
    ensures r.Err? ==> r.error == EmptyComponent(k)
  {
    var piece := Slice(digits, 2 * k, 2 * k + 2);
    if piece == [] then Err(EmptyComponent(k))
    else
      assert Pow(16, |piece|) <= 256;
      Ok(Value(piece, 16))
  }

  /**
   * `hex_to_rgb`, for a colour whose characters after the leading `#`s are
   * all hexadecimal digits. It fails, at the first empty slice, exactly when
   * four or fewer digits remain; every component it returns is a byte.
   */
  function HexToRgb(color: string): (r: Result<Rgb, ColorError>)
    requires AllIn(Digits(color), HexDigit)
    ensures r.Ok? <==> |Digits(color)| >= 5
    ensures r.Ok? ==> IsByte(r.value.red) && IsByte(r.value.green) && IsByte(r.value.blue)
    ensures r.Err? ==> r.error == EmptyComponent((|Digits(color)| + 1) / 2)
  {
    var d := Digits(color);
    match Component(d, 0)
    case Err(e) => Err(e)
    case Ok(red) =>
      match Component(d, 1)
      case Err(e) => Err(e)
      case Ok(green) =>
        match Component(d, 2)
        case Err(e) => Err(e)
        case Ok(blue) => Ok(Rgb(red, green, blue))
  }

  /** Value of the two hexadecimal digits at `i` and `i + 1`. */
  function Pair(d: string, i: nat): nat
    requires AllIn(d, HexDigit) && i + 1 < |d|
  {
    16 * DigitValue(d[i]) + DigitValue(d[i + 1])
  }

  /**
   * On `#` and six hexadecimal digits, component `k` is
   * 16 * digit(2k) + digit(2k + 1).
   */
  lemma HexToRgbOfSixDigits(d: string)
    requires |d| == 6 && AllIn(d, HexDigit)
    ensures AllIn(Digits("#" + d), HexDigit)
    ensures HexToRgb("#" + d) == Ok(Rgb(Pair(d, 0), Pair(d, 2), Pair(d, 4)))
  {
    assert ("#" + d)[1..] == d;
    assert InClass(d[0], HexDigit);
    assert Digits("#" + d) == d;
    ValueOfTwo(d[0..2], 16);
    ValueOfTwo(d[2..4], 16);
    ValueOfTwo(d[4..6], 16);
  }

  /** Every leading `#` is removed, not only the first. */
  lemma HexToRgbIgnoresHashes(hashes: string, color: string)
    requires forall i | 0 <= i < |hashes| :: hashes[i] == '#'
    requires AllIn(Digits(color), HexDigit)
    ensures Digits(hashes + color) == Digits(color)
    ensures HexToRgb(hashes + color) == HexToRgb(color)
  {
    StripLeftPrefix(hashes, color, {'#'});
  }

  /** Anything after the sixth digit is ignored. */
  lemma HexToRgbIgnoresTail(color: string, tail: string)
    requires AllIn(Digits(color), HexDigit) && |Digits(color)| >= 6
    requires AllIn(tail, HexDigit)
    ensures Digits(color + tail) == Digits(color) + tail
    ensures HexToRgb(color + tail) == HexToRgb(color)
  {
    StripLeftAppend(color, tail, {'#'});
    var d := Digits(color);
    ComponentOfPrefix(d, tail, 0);
    ComponentOfPrefix(d, tail, 1);
    ComponentOfPrefix(d, tail, 2);
  }

  lemma ComponentOfPrefix(d: string, tail: string, k: nat)
    requires AllIn(d, HexDigit) && AllIn(tail, HexDigit) && 2 * k + 2 <= |d|
    ensures AllIn(d + tail, HexDigit)
    ensures Component(d + tail, k) == Component(d, k)
  {
    assert Slice(d + tail, 2 * k, 2 * k + 2) == Slice(d, 2 * k, 2 * k + 2);
  }

  /** With exactly five digits the blue component is the single fifth digit. */
  lemma HexToRgbOfFiveDigits(color: string)
    requires AllIn(Digits(color), HexDigit) && |Digits(color)| == 5
    ensures HexToRgb(color).Ok?
    ensures HexToRgb(color).value.blue == DigitValue(Digits(color)[4])
  {
    var d := Digits(color);
    assert d[4..5][..0] == [];
  }

  lemma ComponentIgnoresCase(d: string, k: nat)
    requires AllIn(d, HexDigit)
    ensures AllIn(LowerCase(d), HexDigit)
    ensures Component(LowerCase(d), k) == Component(d, k)
  {
    ValueIgnoresCase(d);
    var piece := Slice(d, 2 * k, 2 * k + 2);
    ValueIgnoresCase(piece);
    assert Slice(LowerCase(d), 2 * k, 2 * k + 2) == LowerCase(piece);
  }

  /** Upper- and lower-case digits give the same colour. */
  lemma HexToRgbIgnoresCase(d: string)
    requires AllIn(d, HexDigit)
    ensures AllIn(LowerCase(d), HexDigit)
    ensures Digits("#" + d) == d && Digits("#" + LowerCase(d)) == LowerCase(d)
    ensures HexToRgb("#" + LowerCase(d)) == HexToRgb("#" + d)
  {
    var l := LowerCase(d);
    ValueIgnoresCase(d);
    DigitsOfHashed(d);
    DigitsOfHashed(l);
    ComponentIgnoresCase(d, 0);
    ComponentIgnoresCase(d, 1);
    ComponentIgnoresCase(d, 2);
    SameComponents("#" + l, "#" + d);
  }

  /** One `#` in front of the digits is stripped. */
  lemma DigitsOfHashed(d: string)
    requires AllIn(d, HexDigit)
    ensures Digits("#" + d) == d
  {
    assert ("#" + d)[1..] == d;
    if d != [] {
      assert InClass(d[0], HexDigit);
    }
  }

  /** Colours whose digits give the same components give the same result. */
  lemma SameComponents(c1: string, c2: string)
    requires AllIn(Digits(c1), HexDigit) && AllIn(Digits(c2), HexDigit)
    requires Component(Digits(c1), 0) == Component(Digits(c2), 0)
    requires Component(Digits(c1), 1) == Component(Digits(c2), 1)
    requires Component(Digits(c1), 2) == Component(Digits(c2), 2)
    ensures HexToRgb(c1) == HexToRgb(c2)
  {
  }

  /** Two lower-case hexadecimal digits for a byte. */
  function HexByte(n: nat): (s: string)
    requires IsByte(n)
    ensures |s| == 2 && AllIn(s, HexDigit)
  {
    [HexChar(n / 16), HexChar(n % 16)]
  }

  /** The `#rrggbb` form of a colour, the form the default `#3498db` has. */
  function RgbToHex(c: Rgb): (s: string)
    requires IsByte(c.red) && IsByte(c.green) && IsByte(c.blue)
    ensures |s| == 7 && s[0] == '#'
  {
    "#" + HexByte(c.red) + HexByte(c.green) + HexByte(c.blue)
  }

  /** Reading back a formatted colour gives the colour. */
  lemma HexToRgbOfRgbToHex(c: Rgb)
    requires IsByte(c.red) && IsByte(c.green) && IsByte(c.blue)
    ensures AllIn(Digits(RgbToHex(c)), HexDigit)
    ensures HexToRgb(RgbToHex(c)) == Ok(c)
  {
    var d := HexByte(c.red) + HexByte(c.green) + HexByte(c.blue);
    assert RgbToHex(c) == "#" + d;
    ThreePairs(HexByte(c.red), HexByte(c.green), HexByte(c.blue));
    HexToRgbOfSixDigits(d);
    PairOfHexByte(d, 0, c.red);
    PairOfHexByte(d, 2, c.green);
    PairOfHexByte(d, 4, c.blue);
  }

  lemma ThreePairs(a: string, b: string, c: string)
    requires |a| == 2 && |b| == 2 && |c| == 2
    ensures var d := a + b + c; |d| == 6 && d[0..2] == a && d[2..4] == b && d[4..6] == c
  {
  }

  lemma PairOfHexByte(d: string, i: nat, n: nat)
    requires IsByte(n) && AllIn(d, HexDigit) && i + 2 <= |d| && d[i..i + 2] == HexByte(n)
    ensures Pair(d, i) == n
  {
    assert d[i] == HexChar(n / 16) && d[i + 1] == HexChar(n % 16);
  }

  /** The default colour of the command line. */
  lemma DefaultColor()
    ensures AllIn(Digits("#3498db"), HexDigit)
    ensures HexToRgb("#3498db") == Ok(Rgb(52, 152, 219))
  {
    DefaultPairs("3498db");
    HexToRgbOfHashed("#3498db", "3498db");
  }

  lemma HexToRgbOfHashed(color: string, d: string)
    requires |d| == 6 && AllIn(d, HexDigit) && color == "#" + d
    ensures AllIn(Digits(color), HexDigit)
    ensures HexToRgb(color) == Ok(Rgb(Pair(d, 0), Pair(d, 2), Pair(d, 4)))
  {
    HexToRgbOfSixDigits(d);
  }

  lemma DefaultPairs(d: string)
    requires d == "3498db"
    ensures AllIn(d, HexDigit) && |d| == 6
    ensures Pair(d, 0) == 52 && Pair(d, 2) == 152 && Pair(d, 4) == 219
  {
  }
}
