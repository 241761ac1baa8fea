/**
 * Character classes and the Python string operations the icon generator
 * relies on (`str.strip`, `str.split`, `str.replace`), over `seq<char>`.
 * Character classes are the ASCII ones: `\d` is `0-9`, `\w` is
 * `[A-Za-z0-9_]`, and `\s` is the six ASCII whitespace characters that
 * `int` and `str.strip()` also skip, plus the separators `\x1c`-`\x1f`,
 * which `int` does not skip.
 */
module Text {

  /** The ASCII whitespace that `int` skips around its digits. */
  const Whitespace: set<char> := {' ', '\t', '\n', '\r', '\U{000B}', '\U{000C}'}

  /** The characters `strip('[]')` removes. */
  const Brackets: set<char> := {'[', ']'}

  predicate IsDigit(c: char) { '0' <= c <= '9' }

  predicate IsSpace(c: char) { c in Whitespace }

  /** `\s` over ASCII: `Whitespace` and the four separators `\x1c`-`\x1f`. */
  predicate IsRegexSpace(c: char) { IsSpace(c) || '\U{001C}' <= c <= '\U{001F}' }

  predicate IsLetter(c: char) { 'a' <= c <= 'z' || 'A' <= c <= 'Z' }

  /** `\w`: letters, digits and the underscore. */
  predicate IsWordChar(c: char) { IsLetter(c) || IsDigit(c) || c == '_' }

  predicate IsHexDigit(c: char) { IsDigit(c) || 'a' <= c <= 'f' || 'A' <= c <= 'F' }

  /** The character classes of the regular expressions in the generator. */
  datatype CharClass =
    | Digit        // \d
    | HexDigit     // what int(_, 16) accepts as a digit
    | Word         // \w
    | FaceBlock    // [\d\s,\[\]]      inside <FACES> ... <FACES>
    | FaceGroup    // [\d\s,]          inside one face [ ... ]
    | ListBlock    // [\w\s,"_\[\]]    inside <LIST> ... <LIST>

  predicate InClass(c: char, k: CharClass) {
    match k
    case Digit => IsDigit(c)
    case HexDigit => IsHexDigit(c)
    case Word => IsWordChar(c)
    case FaceBlock => IsDigit(c) || IsRegexSpace(c) || c == ',' || c == '[' || c == ']'
    case FaceGroup => IsDigit(c) || IsRegexSpace(c) || c == ','
    case ListBlock => IsWordChar(c) || IsRegexSpace(c) || c == ',' || c == '"' || c == '[' || c == ']'
  }

  predicate AllIn(s: string, k: CharClass) {
    forall i | 0 <= i < |s| :: InClass(s[i], k)
  }

  /** `s.lstrip(cs)`: drop every leading character that is in `cs`. */
  function StripLeft(s: string, cs: set<char>): (r: string)
    ensures |r| <= |s| && r == s[|s| - |r|..]
    ensures forall i | 0 <= i < |s| - |r| :: s[i] in cs
    ensures r == [] || r[0] !in cs
  {
    if s != [] && s[0] in cs then StripLeft(s[1..], cs) else s
  }

  /** Characters of `cs` in front of `s` are stripped along with `s`'s own. */
  lemma {:induction false} StripLeftPrefix(h: string, s: string, cs: set<char>)
    requires forall i | 0 <= i < |h| :: h[i] in cs
    ensures StripLeft(h + s, cs) == StripLeft(s, cs)
  {
    if h != [] {
      assert (h + s)[1..] == h[1..] + s;
      StripLeftPrefix(h[1..], s, cs);
    } else {
      assert h + s == s;
    }
  }

  /** Once stripping stops inside `s`, whatever follows `s` is kept. */
  lemma {:induction false} StripLeftAppend(s: string, t: string, cs: set<char>)
    requires StripLeft(s, cs) != []
    ensures StripLeft(s + t, cs) == StripLeft(s, cs) + t
  {
    if s[0] in cs {
      StripLeftStep(s, t, cs);
      StripLeftAppend(s[1..], t, cs);
    } else {
      StripLeftStop(s, t, cs);
    }
  }

  lemma StripLeftStep(s: string, t: string, cs: set<char>)
    requires s != [] && s[0] in cs
    ensures StripLeft(s, cs) == StripLeft(s[1..], cs)
    ensures StripLeft(s + t, cs) == StripLeft(s[1..] + t, cs)
  {
    assert (s + t)[1..] == s[1..] + t;
  }

  lemma StripLeftStop(s: string, t: string, cs: set<char>)
    requires s != [] && s[0] !in cs
    ensures StripLeft(s, cs) == s && StripLeft(s + t, cs) == s + t
  {
    assert (s + t)[0] == s[0];
  }

  /** Characters of `cs` after `s` are stripped along with `s`'s own. */
  lemma {:induction false} StripRightSuffix(s: string, h: string, cs: set<char>)
    requires forall i | 0 <= i < |h| :: h[i] in cs
    ensures StripRight(s + h, cs) == StripRight(s, cs)
  {
    if h != [] {
      assert (s + h)[..|s + h| - 1] == s + h[..|h| - 1];
      StripRightSuffix(s, h[..|h| - 1], cs);
    } else {
      assert s + h == s;
    }
  }

  /** Stripping `s` surrounded by characters of `cs` gives `s` when its ends are outside `cs`. */
  lemma StripSurrounded(pre: string, s: string, post: string, cs: set<char>)
    requires forall i | 0 <= i < |pre| :: pre[i] in cs
    requires forall i | 0 <= i < |post| :: post[i] in cs
    requires s != [] && s[0] !in cs && s[|s| - 1] !in cs
    ensures Strip(pre + s + post, cs) == s
  {
    StripLeftPrefix(pre, s + post, cs);
    assert pre + s + post == pre + (s + post);
    StripRightSuffix(s, post, cs);
  }

  /** `s.rstrip(cs)`: drop every trailing character that is in `cs`. */
  function StripRight(s: string, cs: set<char>): (r: string)
    ensures |r| <= |s| && r == s[..|r|]
    ensures forall i | |r| <= i < |s| :: s[i] in cs
    ensures r == [] || r[|r| - 1] !in cs
  {
    if s != [] && s[|s| - 1] in cs then StripRight(s[..|s| - 1], cs) else s
  }

  /** `s.strip(cs)`: what remains between the leading and the trailing characters in `cs`. */
  function Strip(s: string, cs: set<char>): (r: string)
    ensures StripStart(s, cs) + |r| <= |s|
    ensures r == s[StripStart(s, cs)..StripStart(s, cs) + |r|]
    ensures forall i | 0 <= i < StripStart(s, cs) :: s[i] in cs
    ensures forall i | StripStart(s, cs) + |r| <= i < |s| :: s[i] in cs
    ensures r == [] || (r[0] !in cs && r[|r| - 1] !in cs)
  {
    var l := StripLeft(s, cs);
    var r := StripRight(l, cs);
    StripOfParts(s, cs, l, r, |s| - |l|);
    r
  }

  /** Stripping the right of what stripping the left kept: where the result lies in `s`. */
  lemma StripOfParts(s: string, cs: set<char>, l: string, r: string, k: nat)
    requires k + |l| == |s| && l == s[k..]
    requires l == [] || l[0] !in cs
    requires |r| <= |l| && r == l[..|r|]
    requires forall i | |r| <= i < |l| :: l[i] in cs
    ensures k + |r| <= |s| && r == s[k..k + |r|]
    ensures forall i | k + |r| <= i < |s| :: s[i] in cs
    ensures r == [] || r[0] !in cs
  {
    forall i | k + |r| <= i < |s|
      ensures s[i] in cs
    {
      assert s[i] == l[i - k];
    }
    if r != [] {
      assert r[0] == l[0];
    }
  }

  /** How many leading characters `strip` removes. */
  function StripStart(s: string, cs: set<char>): nat {
    |s| - |StripLeft(s, cs)|
  }

  /** Stripping a string that starts and ends outside `cs` changes nothing. */
  lemma StripClean(s: string, cs: set<char>)
    requires s != [] && s[0] !in cs && s[|s| - 1] !in cs
    ensures Strip(s, cs) == s
  {
  }

  /** `sep.join(pieces)` for a one-character or longer separator. */
  function Join(pieces: seq<string>, sep: string): string
  {
    if |pieces| == 0 then ""
    else if |pieces| == 1 then pieces[0]
    else pieces[0] + sep + Join(pieces[1..], sep)
  }

  /** A join of class-`k` pieces with a class-`k` separator stays in class `k`. */
  lemma {:induction false} JoinAllIn(pieces: seq<string>, sep: string, k: CharClass)
    requires forall i | 0 <= i < |pieces| :: AllIn(pieces[i], k)
    requires AllIn(sep, k)
    ensures AllIn(Join(pieces, sep), k)
  {
    if |pieces| > 1 {
      JoinAllIn(pieces[1..], sep, k);
    }
  }

  /** How OpenSCAD's `echo` prints a vector: `[a, b, c]`. */
  function EchoList(items: seq<string>): string {
    "[" + Join(items, ", ") + "]"
  }

  /** The items after the first, each with the space of the `, ` before it. */
  function Spaced(items: seq<string>): (r: seq<string>)
    ensures |r| == |items|
    ensures forall i | 0 <= i < |items| :: r[i] == (if i == 0 then items[i] else " " + items[i])
  {
    seq(|items|, i requires 0 <= i < |items| => if i == 0 then items[i] else " " + items[i])
  }

  /** Joining with `, ` is joining the spaced items with `,`. */
  lemma {:induction false} JoinSpaced(items: seq<string>)
    ensures Join(items, ", ") == Join(Spaced(items), ",")
  {
    if |items| > 1 {
      var r, t := Spaced(items), Spaced(items[1..]);
      JoinSpaced(items[1..]);
      SpacedTail(items);
      JoinSpaceFirst(t);
      JoinCons(items, ", ");
      JoinCons(r, ",");
      CommaSpace(items[0], Join(t, ","));
    }
  }

  lemma JoinCons(pieces: seq<string>, sep: string)
    requires |pieces| > 1
    ensures Join(pieces, sep) == pieces[0] + sep + Join(pieces[1..], sep)
  {
  }

  lemma CommaSpace(a: string, b: string)
    ensures a + ", " + b == a + "," + (" " + b)
  {
  }

  lemma SpacedTail(items: seq<string>)
    requires |items| > 1
    ensures Spaced(items)[0] == items[0]
    ensures Spaced(items)[1..] == [" " + Spaced(items[1..])[0]] + Spaced(items[1..])[1..]
  {
    var r, t := Spaced(items), Spaced(items[1..]);
    assert |r[1..]| == |t|;
    forall i | 0 <= i < |t|
      ensures r[1..][i] == ([" " + t[0]] + t[1..])[i]
    {
      assert r[1..][i] == r[i + 1] == " " + items[i + 1];
      if i > 0 {
        assert t[i] == " " + items[1..][i];
      }
    }
  }

  /** A space in front of the first piece is a space in front of the join. */
  lemma JoinSpaceFirst(t: seq<string>)
    requires |t| >= 1
    ensures Join([" " + t[0]] + t[1..], ",") == " " + Join(t, ",")
  {
    var x := [" " + t[0]] + t[1..];
    if |t| > 1 {
      assert x[0] == " " + t[0] && x[1..] == t[1..];
      JoinCons(x, ",");
      JoinCons(t, ",");
      SpaceInFront(t[0], Join(t[1..], ","));
    } else {
      assert x == [" " + t[0]];
    }
  }

  lemma SpaceInFront(a: string, b: string)
    ensures (" " + a) + "," + b == " " + (a + "," + b)
  {
  }

  /** `s.split(sep)` for a one-character separator. */
  function Split(s: string, sep: char): (r: seq<string>)
    ensures |r| >= 1
    ensures Join(r, [sep]) == s
    ensures forall i | 0 <= i < |r| :: Lacks(r[i], sep)
  {
    if s == [] then [""]
    else
      var rest := Split(s[1..], sep);
      if s[0] == sep then [""] + rest
      else [[s[0]] + rest[0]] + rest[1..]
  }

  /** No character of `s` is `c`. */
  predicate Lacks(s: string, c: char) {
    forall j | 0 <= j < |s| :: s[j] != c
  }

  lemma LacksNotIn(s: string, c: char)
    requires Lacks(s, c)
    ensures c !in s
  {
  }

  /** Number of occurrences of `c` in `s`. */
  function Count(s: string, c: char): nat
  {
    if s == [] then 0 else (if s[0] == c then 1 else 0) + Count(s[1..], c)
  }

  /** `s.split(sep)` has one piece more than `s` has separators. */
  lemma {:induction false} SplitCount(s: string, sep: char)
    ensures |Split(s, sep)| == Count(s, sep) + 1
  {
    if s != [] {
      SplitCount(s[1..], sep);
    }
  }

  lemma {:induction false} SplitNoSeparator(p: string, sep: char)
    requires Lacks(p, sep)
    ensures Split(p, sep) == [p]
  {
    if p != [] {
      SplitNoSeparator(p[1..], sep);
    }
  }

  lemma {:induction false} SplitAfterPiece(p: string, sep: char, x: string)
    requires Lacks(p, sep)
    ensures Split(p + [sep] + x, sep) == [p] + Split(x, sep)
  {
    if p == [] {
      assert p + [sep] + x == [sep] + x;
      assert ([sep] + x)[1..] == x;
    } else {
      var s := p + [sep] + x;
      assert s[1..] == p[1..] + [sep] + x;
      SplitAfterPiece(p[1..], sep, x);
      var rest := Split(s[1..], sep);
      assert rest == [p[1..]] + Split(x, sep);
      assert [s[0]] + rest[0] == p;
    }
  }

  /** Splitting at a separator splits the text on each side of it on its own. */
  lemma {:induction false} SplitConcat(a: string, sep: char, x: string)
    ensures Split(a + [sep] + x, sep) == Split(a, sep) + Split(x, sep)
  {
    var s := a + [sep] + x;
    if a == [] {
      assert s == [sep] + x;
      SplitAtSeparator(s, sep);
    } else {
      assert s[1..] == a[1..] + [sep] + x;
      SplitConcat(a[1..], sep, x);
      if a[0] == sep {
        SplitAtSeparator(s, sep);
        SplitAtSeparator(a, sep);
      } else {
        SplitAtOther(s, sep);
        SplitAtOther(a, sep);
        FirstPieceGrows(Split(a[1..], sep), Split(x, sep), a[0]);
      }
    }
  }

  lemma SplitAtSeparator(s: string, sep: char)
    requires s != [] && s[0] == sep
    ensures Split(s, sep) == [""] + Split(s[1..], sep)
  {
  }

  lemma SplitAtOther(s: string, sep: char)
    requires s != [] && s[0] != sep
    ensures Split(s, sep) == [[s[0]] + Split(s[1..], sep)[0]] + Split(s[1..], sep)[1..]
  {
  }

  lemma FirstPieceGrows(h: seq<string>, y: seq<string>, c: char)
    requires |h| >= 1
    ensures [[c] + (h + y)[0]] + (h + y)[1..] == [[c] + h[0]] + h[1..] + y
  {
    assert (h + y)[1..] == h[1..] + y;
  }

  /** Splitting undoes joining when no piece holds the separator. */
  lemma {:induction false} SplitJoin(pieces: seq<string>, sep: char)
    requires |pieces| >= 1
    requires forall i | 0 <= i < |pieces| :: Lacks(pieces[i], sep)
    ensures Split(Join(pieces, [sep]), sep) == pieces
  {
    if |pieces| == 1 {
      SplitNoSeparator(pieces[0], sep);
    } else {
      SplitJoin(pieces[1..], sep);
      SplitAfterPiece(pieces[0], sep, Join(pieces[1..], [sep]));
      assert [pieces[0]] + pieces[1..] == pieces;
    }
  }

  lemma SliceOfSlice(s: string, i: nat, j: nat, a: nat, b: nat)
    requires i <= j <= |s| && a <= b <= j - i
    ensures s[i..j][a..b] == s[i + a..i + b]
  {
    assert |s[i..j][a..b]| == b - a;
    forall t | 0 <= t < b - a
      ensures s[i..j][a..b][t] == s[i + a..i + b][t]
    {
    }
  }

  /** `s.replace(m, "")`: delete the occurrences of `m`, scanning left to right. */
  function RemoveAll(s: string, m: string): (r: string)
    requires m != []
    ensures |r| <= |s|
    decreases |s|
  {
    if |s| < |m| then s
    else if s[..|m|] == m then RemoveAll(s[|m|..], m)
    else [s[0]] + RemoveAll(s[1..], m)
  }

  lemma {:induction false} RemoveAllAbsent(s: string, m: string)
    requires m != [] && m[0] !in s
    ensures RemoveAll(s, m) == s
    decreases |s|
  {
    if |s| >= |m| {
      assert s[..|m|][0] == s[0];
      RemoveAllAbsent(s[1..], m);
    }
  }

  lemma {:induction false} RemoveAllTail(w: string, m: string)
    requires m != [] && m[0] !in w
    ensures RemoveAll(w + m, m) == w
    decreases |w|
  {
    if w == [] {
      assert (w + m)[..|m|] == m && (w + m)[|m|..] == [];
    } else {
      assert (w + m)[..|m|][0] == w[0];
      assert (w + m)[1..] == w[1..] + m;
      RemoveAllTail(w[1..], m);
    }
  }

  /**
   * Removing the delimiters of a block whose body cannot hold the delimiter's
   * first character leaves exactly the body.
   */
  lemma RemoveDelimiters(m: string, w: string)
    requires m != [] && m[0] !in w
    ensures RemoveAll(m + w + m, m) == w
  {
    assert m + w + m == m + (w + m);
    RemoveAllLeading(m + (w + m), m, w + m);
    RemoveAllTail(w, m);
  }

  lemma RemoveAllLeading(s: string, m: string, t: string)
    requires m != [] && s == m + t
    ensures RemoveAll(s, m) == RemoveAll(t, m)
  {
    assert s[..|m|] == m && s[|m|..] == t;
  }
}
