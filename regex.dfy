/**
 * The three regular-expression shapes the icon generator uses, as scanners
 * over strings:
 *   - `re.search('M[k]*M', s)` for a marker `M` and a character class `k`
 *     that does not hold the marker's first character (block extraction);
 *   - `re.findall(r'\[[\d\s,]*\]', s)` (innermost bracket groups);
 *   - `re.findall(r'[\w]+', s)` (maximal runs of word characters).
 * Because none of these classes holds the character that ends the pattern,
 * a greedy run never has to backtrack, so a match is determined by the
 * longest run of class characters.
 */
module Regex {
  import opened Wrappers
  import opened Text

  /** Length of the longest prefix of `s` made of class-`k` characters. */
  function RunLen(s: string, k: CharClass): (n: nat)
    ensures n <= |s| && AllIn(s[..n], k)
    ensures n == |s| || !InClass(s[n], k)
  {
    if s == [] || !InClass(s[0], k) then 0
    else
      var n := 1 + RunLen(s[1..], k);
      assert s[..n] == [s[0]] + s[1..][..n - 1];
      n
  }

  /** A class-`k` word followed by a non-class character is exactly one run. */
  lemma {:induction false} RunLenOf(w: string, y: string, k: CharClass)
    requires AllIn(w, k) && (y == [] || !InClass(y[0], k))
    ensures RunLen(w + y, k) == |w|
  {
    if w == [] {
      assert w + y == y;
    } else {
      assert (w + y)[0] == w[0];
      assert (w + y)[1..] == w[1..] + y;
      RunLenOf(w[1..], y, k);
    }
  }

  predicate StartsWith(s: string, p: string) {
    |p| <= |s| && s[..|p|] == p
  }

  // ---------------------------------------------------------------------------
  // re.search('M[k]*M', s).group(0)

  /** `m` is a marker, a run of class-`k` characters and the marker again. */
  predicate IsBlock(m: string, marker: string, k: CharClass) {
    2 * |marker| <= |m| && m[..|marker|] == marker && m[|m| - |marker|..] == marker &&
    AllIn(m[|marker|..|m| - |marker|], k)
  }

  /** Length of the block that the pattern matches at the start of `s`, if any. */
  function BlockAt(s: string, marker: string, k: CharClass): (r: Option<nat>)
    ensures r.Some? ==> 2 * |marker| <= r.value <= |s|
  {
    if StartsWith(s, marker) then
      var e := |marker| + RunLen(s[|marker|..], k);
      if StartsWith(s[e..], marker) then Some(e + |marker|)
      else None
    else None
  }

  /** What the pattern matches at the start is a block. */
  lemma BlockAtIsBlock(s: string, marker: string, k: CharClass)
    requires BlockAt(s, marker, k).Some?
    ensures IsBlock(s[..BlockAt(s, marker, k).value], marker, k)
  {
    var e := |marker| + RunLen(s[|marker|..], k);
    assert s[..e + |marker|][|marker|..e] == s[|marker|..][..e - |marker|];
  }

  /** The pattern matches every block at whose start it is tried. */
  lemma BlockAtOf(s: string, marker: string, k: CharClass, w: string)
    requires marker != [] && !InClass(marker[0], k) && AllIn(w, k)
    requires StartsWith(s, marker + w + marker)
    ensures BlockAt(s, marker, k) == Some(|marker + w + marker|)
  {
    BlockParts(s, marker, w);
    RunLenBefore(s[|marker|..], w, marker, k);
  }

  lemma BlockParts(s: string, marker: string, w: string)
    requires StartsWith(s, marker + w + marker)
    ensures StartsWith(s, marker)
    ensures StartsWith(s[|marker|..], w + marker)
    ensures StartsWith(s[|marker| + |w|..], marker)
  {
    var b := marker + w + marker;
    assert s[..|b|] == b;
    assert s[..|marker|] == b[..|marker|];
    assert s[|marker|..][..|w + marker|] == b[|marker|..];
    assert s[|marker| + |w|..][..|marker|] == b[|marker| + |w|..];
  }

  lemma RunLenBefore(t: string, w: string, marker: string, k: CharClass)
    requires marker != [] && !InClass(marker[0], k) && AllIn(w, k)
    requires StartsWith(t, w + marker)
    ensures RunLen(t, k) == |w|
  {
    assert t == w + t[|w|..];
    assert t[|w|..][0] == (w + marker)[|w|];
    RunLenOf(w, t[|w|..], k);
  }

  datatype Span = Span(start: nat, end: nat)

  /**
   * `re.search`: the leftmost position where the pattern matches, and the
   * extent of the match.
   */
  function Search(s: string, marker: string, k: CharClass): (r: Option<Span>)
    ensures r.Some? ==> r.value.start <= r.value.end <= |s|
    decreases |s|
  {
    match BlockAt(s, marker, k)
    case Some(n) => Some(Span(0, n))
    case None =>
      if s == [] then None
      else
        match Search(s[1..], marker, k)
        case None => None
        case Some(sp) => Some(Span(sp.start + 1, sp.end + 1))
  }

  /** Where no block starts, `re.search` goes on with the next position. */
  lemma SearchStep(s: string, marker: string, k: CharClass, sp: Span)
    requires Search(s, marker, k) == Some(sp) && BlockAt(s, marker, k).None?
    ensures s != [] && Search(s[1..], marker, k).Some?
    ensures sp == Shift(Search(s[1..], marker, k), 1).value
  {
  }

  lemma MatchAtStart(s: string, marker: string, k: CharClass, sp: Span)
    requires Search(s, marker, k) == Some(sp) && BlockAt(s, marker, k).Some?
    ensures BlockAt(s[sp.start..], marker, k) == Some(sp.end - sp.start)
  {
    assert s[0..] == s;
  }

  lemma MatchAfterStep(s: string, marker: string, k: CharClass, sp: Span, sp': Span)
    requires s != [] && sp == Shift(Some(sp'), 1).value && sp.start <= |s|
    requires BlockAt(s[1..][sp'.start..], marker, k) == Some(sp'.end - sp'.start)
    ensures BlockAt(s[sp.start..], marker, k) == Some(sp.end - sp.start)
  {
    assert s[1..][sp'.start..] == s[sp.start..];
  }

  /** The reported span is where the pattern matches. */
  lemma {:induction false} SearchMatchesAt(s: string, marker: string, k: CharClass, sp: Span)
    requires Search(s, marker, k) == Some(sp)
    ensures BlockAt(s[sp.start..], marker, k) == Some(sp.end - sp.start)
    decreases |s|
  {
    if BlockAt(s, marker, k).Some? {
      MatchAtStart(s, marker, k, sp);
    } else {
      SearchStep(s, marker, k, sp);
      var sp' := Search(s[1..], marker, k).value;
      SearchMatchesAt(s[1..], marker, k, sp');
      MatchAfterStep(s, marker, k, sp, sp');
    }
  }

  /** ... so it holds a block. */
  lemma SearchMatches(s: string, marker: string, k: CharClass, sp: Span)
    requires Search(s, marker, k) == Some(sp)
    ensures IsBlock(s[sp.start..sp.end], marker, k)
  {
    SearchMatchesAt(s, marker, k, sp);
    var t := s[sp.start..];
    BlockAtIsBlock(t, marker, k);
    assert t[..sp.end - sp.start] == s[sp.start..sp.end];
  }

  /** No block starts before the position `re.search` reports. */
  lemma {:induction false} SearchIsLeftmost(s: string, marker: string, k: CharClass, j: nat)
    requires Search(s, marker, k).Some? && j < Search(s, marker, k).value.start
    ensures BlockAt(s[j..], marker, k).None?
    decreases |s|
  {
    if j > 0 {
      assert s[1..][j - 1..] == s[j..];
      SearchIsLeftmost(s[1..], marker, k, j - 1);
    }
  }

  /**
   * `re.search` finds a block whenever one occurs, at that position or
   * earlier; so it returns nothing exactly when no block occurs.
   */
  lemma {:induction false} SearchFindsBlock(s: string, marker: string, k: CharClass, i: nat, w: string)
    requires marker != [] && !InClass(marker[0], k) && AllIn(w, k)
    requires i <= |s| && StartsWith(s[i..], marker + w + marker)
    ensures Search(s, marker, k).Some?
    ensures Search(s, marker, k).value.start <= i
    decreases i
  {
    if BlockAt(s, marker, k).None? {
      if i == 0 {
        BlockAtOf(s, marker, k, w);
      } else {
        assert s[1..][i - 1..] == s[i..];
        SearchFindsBlock(s[1..], marker, k, i - 1, w);
      }
    }
  }

  /** `m` does not occur anywhere in `s`. */
  predicate Absent(s: string, m: string) {
    forall j: nat | j <= |s| :: !OccursAt(s, m, j)
  }

  predicate OccursAt(s: string, m: string, j: nat) {
    j + |m| <= |s| && s[j..j + |m|] == m
  }

  /** A marker whose first character does not recur in it. */
  predicate Unbordered(m: string) {
    m != [] && forall i | 1 <= i < |m| :: m[i] != m[0]
  }

  function Shift(r: Option<Span>, d: nat): Option<Span> {
    match r
    case None => None
    case Some(sp) => Some(Span(sp.start + d, sp.end + d))
  }

  lemma NoMarkerBefore(pre: string, x: string, marker: string)
    requires Unbordered(marker) && StartsWith(x, marker)
    requires pre != [] && Absent(pre, marker)
    ensures !StartsWith(pre + x, marker)
  {
    var s := pre + x;
    if |marker| <= |pre| {
      assert !OccursAt(pre, marker, 0);
      assert s[..|marker|] == pre[..|marker|];
    } else {
      assert s[|pre|] == x[0] == marker[0];
      assert marker[|pre|] != marker[0];
    }
  }

  lemma AbsentTail(pre: string, marker: string)
    requires pre != [] && Absent(pre, marker)
    ensures Absent(pre[1..], marker)
  {
    forall j: nat | j <= |pre[1..]|
      ensures !OccursAt(pre[1..], marker, j)
    {
      if j + |marker| <= |pre[1..]| {
        assert pre[1..][j..j + |marker|] == pre[j + 1..j + 1 + |marker|];
        assert !OccursAt(pre, marker, j + 1);
      }
    }
  }

  /**
   * Text in front of a block that holds no marker moves the match but
   * does not change it.
   */
  lemma {:induction false} SearchSkipsPrefix(pre: string, x: string, marker: string, k: CharClass)
    requires Unbordered(marker) && StartsWith(x, marker) && Absent(pre, marker)
    ensures Search(pre + x, marker, k) == Shift(Search(x, marker, k), |pre|)
    decreases |pre|
  {
    if pre == [] {
      assert pre + x == x;
    } else {
      AbsentTail(pre, marker);
      SearchSkipsPrefix(pre[1..], x, marker, k);
      SearchSkipsStep(pre, x, marker, k);
    }
  }

  lemma SearchSkipsStep(pre: string, x: string, marker: string, k: CharClass)
    requires Unbordered(marker) && StartsWith(x, marker)
    requires pre != [] && Absent(pre, marker)
    requires Search(pre[1..] + x, marker, k) == Shift(Search(x, marker, k), |pre| - 1)
    ensures Search(pre + x, marker, k) == Shift(Search(x, marker, k), |pre|)
  {
    SearchSkipsOne(pre, x, marker, k);
    ShiftTwice(Search(pre + x, marker, k), Search(pre[1..] + x, marker, k), Search(x, marker, k), |pre|);
  }

  lemma ShiftTwice(r0: Option<Span>, r1: Option<Span>, r2: Option<Span>, n: nat)
    requires n >= 1 && r0 == Shift(r1, 1) && r1 == Shift(r2, n - 1)
    ensures r0 == Shift(r2, n)
  {
  }

  lemma SearchSkipsOne(pre: string, x: string, marker: string, k: CharClass)
    requires Unbordered(marker) && StartsWith(x, marker)
    requires pre != [] && Absent(pre, marker)
    ensures Search(pre + x, marker, k) == Shift(Search(pre[1..] + x, marker, k), 1)
  {
    NoMarkerBefore(pre, x, marker);
    assert (pre + x)[1..] == pre[1..] + x;
    SearchNoMarker(pre + x, pre[1..] + x, marker, k);
  }

  /** Where the marker does not start, `re.search` moves one position on. */
  lemma SearchNoMarker(s: string, t: string, marker: string, k: CharClass)
    requires s != [] && !StartsWith(s, marker) && t == s[1..]
    ensures Search(s, marker, k) == Shift(Search(t, marker, k), 1)
  {
  }

  lemma ClassLacks(b: string, c: char, k: CharClass)
    requires AllIn(b, k) && !InClass(c, k)
    ensures c !in b
  {
    forall j | 0 <= j < |b|
      ensures b[j] != c
    {
      assert InClass(b[j], k);
    }
  }

  lemma StartsWithMarker(x: string, b: string, marker: string)
    requires StartsWith(x, marker + b + marker)
    ensures StartsWith(x, marker)
  {
    assert x[..|marker|] == (marker + b + marker)[..|marker|];
  }

  /** A block at the very start is what `re.search` reports. */
  lemma SearchAtStart(x: string, b: string, marker: string, k: CharClass)
    requires Unbordered(marker) && !InClass(marker[0], k) && AllIn(b, k)
    requires StartsWith(x, marker + b + marker)
    ensures Search(x, marker, k) == Some(Span(0, |marker + b + marker|))
  {
    BlockAtOf(x, marker, k, b);
  }

  /** A match at the start of `x` survives any marker-free text in front. */
  lemma SearchAfterPrefix(pre: string, x: string, marker: string, k: CharClass, n: nat)
    requires Unbordered(marker) && Absent(pre, marker) && StartsWith(x, marker)
    requires Search(x, marker, k) == Some(Span(0, n))
    ensures Search(pre + x, marker, k) == Some(Span(|pre|, |pre| + n))
  {
    SearchSkipsPrefix(pre, x, marker, k);
  }

  /** A block after text that holds no marker is the one `re.search` finds. */
  lemma FindBlock(pre: string, x: string, b: string, marker: string, k: CharClass, n: nat)
    requires Unbordered(marker) && !InClass(marker[0], k)
    requires AllIn(b, k) && Absent(pre, marker)
    requires StartsWith(x, marker + b + marker) && n == |marker + b + marker|
    ensures Search(pre + x, marker, k) == Some(Span(|pre|, |pre| + n))
  {
    StartsWithMarker(x, b, marker);
    SearchAtStart(x, b, marker, k);
    SearchAfterPrefix(pre, x, marker, k, n);
  }

  /** What is left of a match without its markers is in the class. */
  lemma MatchBodyIn(s: string, marker: string, k: CharClass, sp: Span)
    requires Unbordered(marker) && !InClass(marker[0], k)
    requires Search(s, marker, k) == Some(sp)
    ensures sp.start <= sp.end <= |s| && AllIn(RemoveAll(s[sp.start..sp.end], marker), k)
  {
    SearchMatches(s, marker, k, sp);
    BlockBodyIn(s[sp.start..sp.end], marker, k);
  }

  lemma BlockBodyIn(m: string, marker: string, k: CharClass)
    requires marker != [] && !InClass(marker[0], k) && IsBlock(m, marker, k)
    ensures AllIn(RemoveAll(m, marker), k)
  {
    BlockBody(m, marker, k);
  }

  /** Removing the markers from a block leaves the run between them. */
  lemma BlockBody(m: string, marker: string, k: CharClass)
    requires marker != [] && !InClass(marker[0], k) && IsBlock(m, marker, k)
    ensures RemoveAll(m, marker) == m[|marker|..|m| - |marker|]
  {
    var w := m[|marker|..|m| - |marker|];
    assert m == marker + w + marker;
    ClassLacks(w, marker[0], k);
    RemoveDelimiters(marker, w);
  }

  /**
   * `re.search(...).group(0).replace(marker, '')`: the text between the
   * markers of the leftmost block, or nothing when no block occurs.
   */
  function Extract(s: string, marker: string, k: CharClass): (r: Option<string>)
    requires Unbordered(marker) && !InClass(marker[0], k)
    ensures r.Some? <==> Search(s, marker, k).Some?
    ensures r.Some? ==> AllIn(r.value, k)
  {
    match Search(s, marker, k)
    case None => None
    case Some(sp) =>
      MatchBodyIn(s, marker, k, sp);
      Some(RemoveAll(s[sp.start..sp.end], marker))
  }

  lemma MatchBody(s: string, marker: string, k: CharClass, sp: Span)
    requires Unbordered(marker) && !InClass(marker[0], k)
    requires Search(s, marker, k) == Some(sp)
    ensures 2 * |marker| <= sp.end - sp.start
    ensures RemoveAll(s[sp.start..sp.end], marker) == s[sp.start + |marker|..sp.end - |marker|]
  {
    SearchMatches(s, marker, k, sp);
    SpanBody(s, marker, k, sp);
  }

  /** Removing the markers from a block found in `s` leaves the slice between them. */
  lemma SpanBody(s: string, marker: string, k: CharClass, sp: Span)
    requires marker != [] && !InClass(marker[0], k)
    requires sp.start <= sp.end <= |s| && IsBlock(s[sp.start..sp.end], marker, k)
    ensures 2 * |marker| <= sp.end - sp.start
    ensures RemoveAll(s[sp.start..sp.end], marker) == s[sp.start + |marker|..sp.end - |marker|]
  {
    BodyOfSlice(s, sp.start, sp.end, marker, k);
  }

  lemma BodyOfSlice(s: string, i: nat, j: nat, marker: string, k: CharClass)
    requires marker != [] && !InClass(marker[0], k)
    requires i <= j <= |s| && IsBlock(s[i..j], marker, k)
    ensures RemoveAll(s[i..j], marker) == s[i + |marker|..j - |marker|]
  {
    BlockMiddle(s, i, j, marker, k);
    BodyOfBlock(s[i..j], marker, k, s[i + |marker|..j - |marker|]);
  }

  lemma BlockMiddle(s: string, i: nat, j: nat, marker: string, k: CharClass)
    requires i <= j <= |s| && IsBlock(s[i..j], marker, k)
    ensures s[i..j][|marker|..|s[i..j]| - |marker|] == s[i + |marker|..j - |marker|]
  {
    MiddleOfSlice(s, i, j, |marker|);
  }

  lemma BodyOfBlock(m: string, marker: string, k: CharClass, w: string)
    requires marker != [] && !InClass(marker[0], k)
    requires IsBlock(m, marker, k) && w == m[|marker|..|m| - |marker|]
    ensures RemoveAll(m, marker) == w
  {
    BlockBody(m, marker, k);
  }

  lemma MiddleOfSlice(s: string, i: nat, j: nat, d: nat)
    requires i + 2 * d <= j <= |s|
    ensures s[i..j][d..|s[i..j]| - d] == s[i + d..j - d]
  {
    SliceOfSlice(s, i, j, d, j - i - d);
  }

  /** `Extract` gives back the match with its markers removed. */
  lemma ExtractOfMatch(s: string, marker: string, k: CharClass, sp: Span, b: string)
    requires Unbordered(marker) && !InClass(marker[0], k)
    requires Search(s, marker, k) == Some(sp)
    requires RemoveAll(s[sp.start..sp.end], marker) == b
    ensures Extract(s, marker, k) == Some(b)
  {
  }

  /** What `Extract` gives back is the text between the markers of the match. */
  lemma ExtractIsBetweenMarkers(s: string, marker: string, k: CharClass, sp: Span)
    requires Unbordered(marker) && !InClass(marker[0], k)
    requires Search(s, marker, k) == Some(sp)
    ensures 2 * |marker| <= sp.end - sp.start
    ensures Extract(s, marker, k) == Some(s[sp.start + |marker|..sp.end - |marker|])
  {
    MatchBody(s, marker, k, sp);
    ExtractOfMatch(s, marker, k, sp, s[sp.start + |marker|..sp.end - |marker|]);
  }

  lemma SliceAfter(pre: string, x: string, n: nat)
    requires n <= |x|
    ensures (pre + x)[|pre|..|pre| + n] == x[..n]
  {
  }

  /** A block after text that holds no marker gives back its body. */
  lemma ExtractOf(pre: string, x: string, b: string, marker: string, k: CharClass)
    requires Unbordered(marker) && !InClass(marker[0], k)
    requires AllIn(b, k) && Absent(pre, marker)
    requires StartsWith(x, marker + b + marker)
    ensures Extract(pre + x, marker, k) == Some(b)
  {
    ExtractAfter(pre + x, pre, x, b, marker, k);
  }

  lemma ExtractAfter(s: string, pre: string, x: string, b: string, marker: string, k: CharClass)
    requires Unbordered(marker) && !InClass(marker[0], k)
    requires AllIn(b, k) && Absent(pre, marker)
    requires StartsWith(x, marker + b + marker) && s == pre + x
    ensures Extract(s, marker, k) == Some(b)
  {
    var n := |marker + b + marker|;
    var sp := Span(|pre|, |pre| + n);
    FindBlock(pre, x, b, marker, k, n);
    BodyAfter(s, pre, x, b, marker, k, sp);
    ExtractOfMatch(s, marker, k, sp, b);
  }

  lemma BodyAfter(s: string, pre: string, x: string, b: string, marker: string, k: CharClass, sp: Span)
    requires marker != [] && !InClass(marker[0], k) && AllIn(b, k)
    requires StartsWith(x, marker + b + marker) && s == pre + x
    requires sp == Span(|pre|, |pre| + |marker + b + marker|)
    ensures sp.end <= |s| && RemoveAll(s[sp.start..sp.end], marker) == b
  {
    SliceAfter(pre, x, |marker + b + marker|);
    ClassLacks(b, marker[0], k);
    RemoveDelimiters(marker, b);
  }

  // ---------------------------------------------------------------------------
  // re.findall(r'\[[\d\s,]*\]', s)

  /** `t` is `[`, digits, whitespace and commas, then `]`. */
  predicate IsGroup(t: string) {
    2 <= |t| && t[0] == '[' && t[|t| - 1] == ']' && AllIn(t[1..|t| - 1], FaceGroup)
  }

  /** Length of the group that the pattern matches at the start of `s`, if any. */
  function GroupAt(s: string): (r: Option<nat>)
    ensures r.Some? ==> 2 <= r.value <= |s| && IsGroup(s[..r.value])
  {
    if s != [] && s[0] == '[' then
      var e := 1 + RunLen(s[1..], FaceGroup);
      if e < |s| && s[e] == ']' then
        assert s[..e + 1][1..e] == s[1..][..e - 1];
        Some(e + 1)
      else None
    else None
  }

  /** The pattern matches every group at whose start it is tried. */
  lemma GroupAtOf(t: string, rest: string)
    requires IsGroup(t)
    ensures GroupAt(t + rest) == Some(|t|)
  {
    var s := t + rest;
    var w := t[1..|t| - 1];
    assert s[1..] == w + ([']'] + rest);
    RunLenOf(w, [']'] + rest, FaceGroup);
  }

  /** An opening bracket followed by another never starts a group. */
  lemma GroupAtNested(x: string)
    requires x != [] && x[0] == '['
    ensures GroupAt("[" + x) == None
  {
    assert ("[" + x)[1..] == x;
  }

  /** `re.findall`: scan left to right, resuming after each match. */
  function FindGroups(s: string): (r: seq<string>)
    ensures forall i | 0 <= i < |r| :: IsGroup(r[i])
    decreases |s|
  {
    if s == [] then []
    else
      match GroupAt(s)
      case Some(n) => [s[..n]] + FindGroups(s[n..])
      case None => FindGroups(s[1..])
  }

  /** Reference: the group that starts at each position of `s`, in order. */
  function GroupsAtEveryPosition(s: string): seq<string>
    decreases |s|
  {
    if s == [] then []
    else
      (match GroupAt(s) case Some(n) => [s[..n]] case None => []) +
      GroupsAtEveryPosition(s[1..])
  }

  /** Inside a group no other group starts. */
  lemma SkipInsideGroup(s: string, n: nat)
    requires GroupAt(s) == Some(n)
    ensures GroupsAtEveryPosition(s[1..]) == GroupsAtEveryPosition(s[n..])
  {
    forall j | 1 <= j < n
      ensures s[j] != '['
    {
      NoBracketInsideGroup(s, n, j);
    }
    SkipNoBracket(s, 1, n);
  }

  lemma {:induction false} SkipNoBracket(s: string, j: nat, n: nat)
    requires j <= n <= |s| && forall i | j <= i < n :: s[i] != '['
    ensures GroupsAtEveryPosition(s[j..]) == GroupsAtEveryPosition(s[n..])
    decreases n - j
  {
    if j < n {
      GroupsSkipOne(s, j);
      SkipNoBracket(s, j + 1, n);
    }
  }

  lemma NoBracketInsideGroup(s: string, n: nat, j: nat)
    requires GroupAt(s) == Some(n) && 1 <= j < n
    ensures s[j] != '['
  {
    var t := s[..n];
    assert IsGroup(t) && |t| == n;
    assert t[j] == s[j];
    if j < n - 1 {
      assert t[1..|t| - 1][j - 1] == t[j];
    }
  }

  /** A position where no `[` stands starts no group. */
  lemma GroupsSkipOne(s: string, j: nat)
    requires j < |s| && s[j] != '['
    ensures GroupsAtEveryPosition(s[j..]) == GroupsAtEveryPosition(s[j + 1..])
  {
    assert s[j..][1..] == s[j + 1..];
  }

  /**
   * Resuming after each match loses nothing: the groups `findall` returns
   * are the groups that start anywhere in `s`, in source order. Since a group
   * holds no bracket inside, these are the innermost bracket groups.
   */
  lemma {:induction false} FindGroupsAtEveryPosition(s: string)
    ensures FindGroups(s) == GroupsAtEveryPosition(s)
    decreases |s|
  {
    if s != [] {
      match GroupAt(s)
      case Some(n) =>
        FindGroupsAtEveryPosition(s[n..]);
        SkipInsideGroup(s, n);
      case None =>
        FindGroupsAtEveryPosition(s[1..]);
    }
  }

  /** A group at the front is returned first, and scanning resumes after it. */
  lemma FindGroupsCons(t: string, rest: string)
    requires IsGroup(t)
    ensures FindGroups(t + rest) == [t] + FindGroups(rest)
  {
    GroupAtOf(t, rest);
    assert (t + rest)[..|t|] == t && (t + rest)[|t|..] == rest;
  }

  /** A leading character other than `[` contributes no group. */
  lemma FindGroupsSkip(c: char, rest: string)
    requires c != '['
    ensures FindGroups([c] + rest) == FindGroups(rest)
  {
    assert ([c] + rest)[1..] == rest;
  }

  // ---------------------------------------------------------------------------
  // re.findall(r'[\w]+', s)

  /** `re.findall`: at a word character take the whole run, else move on. */
  function FindWords(s: string): (r: seq<string>)
    ensures forall i | 0 <= i < |r| :: r[i] != [] && AllIn(r[i], Word)
    decreases |s|
  {
    if s == [] then []
    else if IsWordChar(s[0]) then
      var n := RunLen(s, Word);
      [s[..n]] + FindWords(s[n..])
    else FindWords(s[1..])
  }

  /**
   * Reference: one token for each position where a run of word characters
   * begins (a word character not preceded by one), running to the run's end.
   */
  function RunsAtEveryStart(s: string, afterWord: bool): seq<string>
    decreases |s|
  {
    if s == [] then []
    else
      (if IsWordChar(s[0]) && !afterWord then [s[..RunLen(s, Word)]] else []) +
      RunsAtEveryStart(s[1..], IsWordChar(s[0]))
  }

  lemma {:induction false} SkipInsideRun(s: string, n: nat, j: nat)
    requires n == RunLen(s, Word) && 1 <= j <= n
    ensures RunsAtEveryStart(s[j..], true) == RunsAtEveryStart(s[n..], false)
    decreases n - j
  {
    if j < n {
      assert s[..n][j] == s[j];
      assert s[j..][1..] == s[j + 1..];
      SkipInsideRun(s, n, j + 1);
    } else if s[n..] != [] {
      assert s[n..][1..] == s[n + 1..];
    }
  }

  /** The tokens `findall` returns are exactly the maximal word runs, in order. */
  lemma {:induction false} FindWordsAreMaximalRuns(s: string)
    ensures FindWords(s) == RunsAtEveryStart(s, false)
    decreases |s|
  {
    if s != [] {
      if IsWordChar(s[0]) {
        var n := RunLen(s, Word);
        FindWordsAreMaximalRuns(s[n..]);
        SkipInsideRun(s, n, 1);
      } else {
        FindWordsAreMaximalRuns(s[1..]);
      }
    }
  }

  /** The word characters of `s`, in order. */
  function WordChars(s: string): (r: string)
    ensures AllIn(r, Word)
  {
    if s == [] then []
    else (if IsWordChar(s[0]) then [s[0]] else []) + WordChars(s[1..])
  }

  function Concat(ts: seq<string>): string {
    if ts == [] then [] else ts[0] + Concat(ts[1..])
  }

  lemma {:induction false} WordCharsOfRun(s: string, n: nat)
    requires n <= |s| && AllIn(s[..n], Word)
    ensures WordChars(s) == s[..n] + WordChars(s[n..])
  {
    if n > 0 {
      assert s[..n][0] == s[0];
      assert s[1..][..n - 1] == s[..n][1..];
      WordCharsOfRun(s[1..], n - 1);
      assert s[1..][n - 1..] == s[n..];
      assert [s[0]] + s[..n][1..] == s[..n];
    }
  }

  /** Tokenising keeps every word character, in order, and drops the rest. */
  lemma {:induction false} FindWordsKeepsWordChars(s: string)
    ensures Concat(FindWords(s)) == WordChars(s)
    decreases |s|
  {
    if s != [] {
      if IsWordChar(s[0]) {
        var n := RunLen(s, Word);
        FindWordsKeepsWordChars(s[n..]);
        WordCharsOfRun(s, n);
        assert ([s[..n]] + FindWords(s[n..]))[1..] == FindWords(s[n..]);
      } else {
        FindWordsKeepsWordChars(s[1..]);
      }
    }
  }

  /** A word followed by a non-word character is returned whole. */
  lemma FindWordsCons(t: string, rest: string)
    requires t != [] && AllIn(t, Word) && (rest == [] || !IsWordChar(rest[0]))
    ensures FindWords(t + rest) == [t] + FindWords(rest)
  {
    RunLenOf(t, rest, Word);
    assert (t + rest)[..|t|] == t && (t + rest)[|t|..] == rest;
  }

  /** A leading non-word character contributes no token. */
  lemma FindWordsSkip(c: char, rest: string)
    requires !IsWordChar(c)
    ensures FindWords([c] + rest) == FindWords(rest)
  {
    assert ([c] + rest)[1..] == rest;
  }
}
