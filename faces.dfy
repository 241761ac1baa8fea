/**
 * The face part of `get_polyhedron_data` in iconhedra.py: find the
 * `<FACES> ... <FACES>` block in OpenSCAD's output, take every innermost
 * bracket group of digits, whitespace and commas, and read each group as a
 * list of vertex indices (`strip('[]')`, `split(',')`, `int`).
 */
module Faces {
  import opened Wrappers
  import opened Text
  import opened Numerals
  import opened Regex

  const FacesMarker: string := "<FACES>"

  /** A face: vertex indices in the order the block lists them. */
  type Face = seq<nat>

  /** Where the geometry comes from: the OpenSCAD file or a library name. */
  datatype Source = ScadFile(path: string) | Named(name: string)

  datatype DataError =
    | NoSource                      // ValueError: neither a name nor a file
    | MissingFacesBlock             // `re.search` found no block; `.group` raises
    | NotAnInteger(piece: string)   // ValueError from `int(piece)`

  /**
   * The source `get_polyhedron_data` runs OpenSCAD on: the file when one is
   * given, else the named polyhedron, else a ValueError.
   */
  function SelectSource(name: Option<string>, file: Option<string>): (r: Result<Source, DataError>)
    ensures r.Ok? <==> Given(file) || Given(name)
    ensures r.Err? ==> r.error == NoSource
    ensures Given(file) ==> r == Ok(ScadFile(file.value))
    ensures !Given(file) && Given(name) ==> r == Ok(Named(name.value))
  {
    if Given(file) then Ok(ScadFile(file.value))
    else if Given(name) then Ok(Named(name.value))
    else Err(NoSource)
  }

  /**
   * `int(piece)` for a piece of digits and whitespace: surrounding
   * whitespace is ignored, and what is left must be a non-empty run of
   * digits. A piece it accepts holds a digit and nothing but digits and
   * whitespace; a piece it rejects is named in the error.
   */
  function ParseInt(piece: string): (r: Result<nat, DataError>)
    ensures r.Err? ==> r.error == NotAnInteger(piece)
    ensures r.Ok? ==> forall i | 0 <= i < |piece| :: IsDigit(piece[i]) || IsSpace(piece[i])
    ensures r.Ok? ==> exists i | 0 <= i < |piece| :: IsDigit(piece[i])
  {
    var t := Strip(piece, Whitespace);
    if t != [] && AllIn(t, Digit) then
      DigitsBetweenSpaces(piece, t, StripStart(piece, Whitespace));
      Ok(Value(t, 10))
    else Err(NotAnInteger(piece))
  }

  lemma DigitsBetweenSpaces(piece: string, t: string, k: nat)
    requires t != [] && AllIn(t, Digit)
    requires k + |t| <= |piece| && t == piece[k..k + |t|]
    requires forall i | 0 <= i < k :: piece[i] in Whitespace
    requires forall i | k + |t| <= i < |piece| :: piece[i] in Whitespace
    ensures forall i | 0 <= i < |piece| :: IsDigit(piece[i]) || IsSpace(piece[i])
    ensures IsDigit(piece[k])
  {
    forall i | k <= i < k + |t|
      ensures IsDigit(piece[i])
    {
      assert piece[i] == t[i - k];
      assert InClass(t[i - k], Digit);
    }
    assert piece[k] == t[0];
    assert InClass(t[0], Digit);
  }

  /**
   * A list comprehension whose element expression may raise: `[f(x) for x
   * in xs]` gives every result in order, or the error of the first element
   * that raises (`TryAllError`).
   */
  function TryAll<T>(xs: seq<string>, f: string -> Result<T, DataError>): (r: Result<seq<T>, DataError>)
    ensures r.Ok? ==> |r.value| == |xs|
  {
    if xs == [] then Ok([])
    else
      match f(xs[0])
      case Err(e) => Err(e)
      case Ok(y) =>
        match TryAll(xs[1..], f)
        case Err(e) => Err(e)
        case Ok(ys) => Ok([y] + ys)
  }

  /**
   * `[int(f) for f in pieces]`: one index per piece, given exactly when
   * every piece is an integer; otherwise the error is a piece that is not.
   */
  function ParseAll(pieces: seq<string>): (r: Result<Face, DataError>)
    ensures r.Ok? ==> |r.value| == |pieces|
    ensures r.Ok? <==> forall i | 0 <= i < |pieces| :: ParseInt(pieces[i]).Ok?
    ensures r.Err? ==> r.error.NotAnInteger?
  {
    TryAllOk(pieces, ParseInt);
    if TryAll(pieces, ParseInt).Err? then
      TryAllError(pieces, ParseInt);
      TryAll(pieces, ParseInt)
    else
      TryAll(pieces, ParseInt)
  }

  /**
   * One face token: `[int(f) for f in v.strip('[]').split(',')]`. A
   * decoded face has one index per comma of the stripped token, plus one.
   */
  function DecodeFace(token: string): (r: Result<Face, DataError>)
    ensures r.Ok? ==> |r.value| == Count(Strip(token, Brackets), ',') + 1
    ensures r.Err? ==> r.error.NotAnInteger?
  {
    SplitCount(Strip(token, Brackets), ',');
    ParseAll(Split(Strip(token, Brackets), ','))
  }

  /**
   * `[... for v in faces]`: one face per token, given exactly when every
   * token decodes; otherwise the error is a piece that is not an integer.
   */
  function DecodeFaces(tokens: seq<string>): (r: Result<seq<Face>, DataError>)
    ensures r.Ok? ==> |r.value| == |tokens|
    ensures r.Ok? <==> forall i | 0 <= i < |tokens| :: DecodeFace(tokens[i]).Ok?
    ensures r.Err? ==> r.error.NotAnInteger?
  {
    TryAllOk(tokens, DecodeFace);
    if TryAll(tokens, DecodeFace).Err? then
      TryAllError(tokens, DecodeFace);
      TryAll(tokens, DecodeFace)
    else
      TryAll(tokens, DecodeFace)
  }

  /**
   * The faces listed in OpenSCAD's output. The block is reported missing
   * exactly when the search finds no `<FACES>` block; the only other error
   * is a piece that is not an integer.
   */
  function FacesOfOutput(output: string): (r: Result<seq<Face>, DataError>)
    ensures r == Err(MissingFacesBlock) <==> Search(output, FacesMarker, FaceBlock) == None
    ensures r.Err? ==> r.error == MissingFacesBlock || r.error.NotAnInteger?
  {
    FacesMarkerUnbordered();
    match Extract(output, FacesMarker, FaceBlock)
    case None => Err(MissingFacesBlock)
    case Some(body) => DecodeFaces(FindGroups(body))
  }

  /**
   * The faces `get_polyhedron_data` returns for a name or a file, given the
   * text OpenSCAD printed for that source.
   */
  function PolyhedronFaces(name: Option<string>, file: Option<string>, output: string)
    : (r: Result<seq<Face>, DataError>)
    ensures !Given(name) && !Given(file) ==> r == Err(NoSource)
    ensures Given(name) || Given(file) ==> r == FacesOfOutput(output)
  {
    match SelectSource(name, file)
    case Err(e) => Err(e)
    case Ok(_) => FacesOfOutput(output)
  }

  // ---------------------------------------------------------------------------
  // Properties

  /** The brackets of a group token are stripped and nothing else. */
  lemma StripGroup(t: string)
    requires IsGroup(t)
    ensures Strip(t, Brackets) == t[1..|t| - 1]
  {
    var w := t[1..|t| - 1];
    assert t == "[" + w + "]";
    if w == [] {
      assert StripLeft(t, Brackets) == [];
    } else {
      assert InClass(w[0], FaceGroup) && InClass(w[|w| - 1], FaceGroup);
      StripSurrounded("[", w, "]", Brackets);
    }
  }

  /** A decoded face has one index per comma of its token, plus one. */
  lemma DecodeFaceLength(t: string)
    requires IsGroup(t) && DecodeFace(t).Ok?
    ensures |DecodeFace(t).value| == Count(t[1..|t| - 1], ',') + 1
  {
    StripGroup(t);
    SplitCount(t[1..|t| - 1], ',');
  }

  /** Only what `\s` matches: what a piece between two commas of a group may hold besides digits. */
  predicate Blank(s: string) {
    forall i | 0 <= i < |s| :: IsRegexSpace(s[i])
  }

  /** Only the whitespace `int` skips. */
  predicate Padding(s: string) {
    forall i | 0 <= i < |s| :: IsSpace(s[i])
  }

  /** A piece that is empty or only whitespace is not an integer. */
  lemma ParseIntBlank(piece: string)
    requires Blank(piece)
    ensures ParseInt(piece).Err?
  {
  }

  /** Decoding a token is splitting what lies between its brackets. */
  lemma DecodeGroup(w: string)
    requires AllIn(w, FaceGroup)
    ensures IsGroup("[" + w + "]")
    ensures DecodeFace("[" + w + "]") == ParseAll(Split(w, ','))
  {
    var t := "[" + w + "]";
    assert t[1..|t| - 1] == w;
    StripGroup(t);
  }

  /**
   * A token with an empty piece does not decode: `[]`, a doubled comma, a
   * leading or a trailing comma.
   */
  lemma DecodeFaceEmptyPiece(w: string, i: nat)
    requires AllIn(w, FaceGroup)
    requires i < |Split(w, ',')| && Blank(Split(w, ',')[i])
    ensures DecodeFace("[" + w + "]").Err?
  {
    DecodeGroup(w);
    ParseIntBlank(Split(w, ',')[i]);
    TryAllFails(Split(w, ','), ParseInt, i);
  }

  lemma DecodeEmptyFace()
    ensures DecodeFace("[]").Err?
  {
    DecodeFaceEmptyPiece("", 0);
    assert "[" + "" + "]" == "[]";
  }

  /** A doubled comma anywhere leaves an empty piece between the two. */
  lemma DecodeDoubledComma(a: string, b: string)
    requires AllIn(a, FaceGroup) && AllIn(b, FaceGroup)
    ensures DecodeFace("[" + a + ",," + b + "]").Err?
  {
    var w := a + ",," + b;
    SplitDoubled(a, b);
    DoubledInGroup(a, b);
    DecodeFaceEmptyPiece(w, |Split(a, ',')|);
    DoubledShape(a, b);
  }

  lemma DoubledShape(a: string, b: string)
    ensures "[" + a + ",," + b + "]" == "[" + (a + ",," + b) + "]"
  {
  }

  /** The piece after the pieces of `a` is the empty one between the two commas. */
  lemma SplitDoubled(a: string, b: string)
    ensures |Split(a + ",," + b, ',')| > |Split(a, ',')|
    ensures Split(a + ",," + b, ',')[|Split(a, ',')|] == ""
  {
    assert a + ",," + b == a + [','] + ([','] + b);
    SplitConcat(a, ',', [','] + b);
    assert "" + [','] + b == [','] + b;
    SplitAfterPiece("", ',', b);
  }

  lemma DoubledInGroup(a: string, b: string)
    requires AllIn(a, FaceGroup) && AllIn(b, FaceGroup)
    ensures AllIn(a + ",," + b, FaceGroup)
  {
    var w := a + ",," + b;
    forall j | 0 <= j < |w|
      ensures InClass(w[j], FaceGroup)
    {
      if j >= |a| + 2 {
        assert w[j] == b[j - |a| - 2];
      }
    }
  }

  /** A trailing comma leaves an empty last piece, however many commas come before it. */
  lemma DecodeTrailingComma(a: string)
    requires AllIn(a, FaceGroup)
    ensures DecodeFace("[" + a + ",]").Err?
  {
    var w := a + ",";
    SplitTrailing(a);
    TrailingInGroup(a);
    DecodeFaceEmptyPiece(w, |Split(a, ',')|);
    TrailingShape(a);
  }

  lemma TrailingShape(a: string)
    ensures "[" + a + ",]" == "[" + (a + ",") + "]"
  {
  }

  /** The piece after the pieces of `a` is the empty one after the comma. */
  lemma SplitTrailing(a: string)
    ensures |Split(a + ",", ',')| > |Split(a, ',')|
    ensures Split(a + ",", ',')[|Split(a, ',')|] == ""
  {
    assert a + "," == a + [','] + "";
    SplitConcat(a, ',', "");
    assert Split("", ',') == [""];
  }

  lemma TrailingInGroup(a: string)
    requires AllIn(a, FaceGroup)
    ensures AllIn(a + ",", FaceGroup)
  {
    var w := a + ",";
    forall j | 0 <= j < |w|
      ensures InClass(w[j], FaceGroup)
    {
      if j < |a| {
        assert w[j] == a[j];
      }
    }
  }

  /** A numeral with whitespace around it reads back as its number. */
  lemma ParseIntOfDecimal(pre: string, n: nat, post: string)
    requires Padding(pre) && Padding(post)
    ensures ParseInt(pre + Decimal(n) + post) == Ok(n)
  {
    var d := Decimal(n);
    assert !IsSpace(d[0]) && !IsSpace(d[|d| - 1]);
    StripSurrounded(pre, d, post, Whitespace);
  }
  /** The numerals of a face's indices. */
  function IndexNumerals(f: Face): (r: seq<string>)
    ensures |r| == |f| && forall i | 0 <= i < |f| :: r[i] == Decimal(f[i])
  {
    seq(|f|, i requires 0 <= i < |f| => Decimal(f[i]))
  }

  /** How OpenSCAD prints a face: `[i0, i1, ..., ik]`. */
  function EchoFace(f: Face): string {
    EchoList(IndexNumerals(f))
  }

  /** Elements that each give the matching result give the whole list. */
  lemma {:induction false} TryAllOf<T>(xs: seq<string>, f: string -> Result<T, DataError>, ys: seq<T>)
    requires |xs| == |ys|
    requires forall i | 0 <= i < |xs| :: f(xs[i]) == Ok(ys[i])
    ensures TryAll(xs, f) == Ok(ys)
  {
    if xs != [] {
      assert f(xs[0]) == Ok(ys[0]);
      assert forall i | 0 <= i < |xs[1..]| :: xs[1..][i] == xs[i + 1];
      TryAllOf(xs[1..], f, ys[1..]);
      assert [ys[0]] + ys[1..] == ys;
    }
  }

  /** Each result of a comprehension that succeeds is its element's result. */
  lemma {:induction false} TryAllValues<T>(xs: seq<string>, f: string -> Result<T, DataError>, i: nat)
    requires TryAll(xs, f).Ok? && i < |xs|
    ensures f(xs[i]) == Ok(TryAll(xs, f).value[i])
    decreases i
  {
    if i > 0 {
      TryAllValues(xs[1..], f, i - 1);
    }
  }

  /** One element that raises makes the whole comprehension raise. */
  lemma {:induction false} TryAllFails<T>(xs: seq<string>, f: string -> Result<T, DataError>, i: nat)
    requires i < |xs| && f(xs[i]).Err?
    ensures TryAll(xs, f).Err?
    decreases i
  {
    if i > 0 && f(xs[0]).Ok? {
      TryAllFails(xs[1..], f, i - 1);
    }
  }

  /** Elements none of which raises give a result. */
  lemma {:induction false} TryAllSucceeds<T>(xs: seq<string>, f: string -> Result<T, DataError>)
    requires forall i | 0 <= i < |xs| :: f(xs[i]).Ok?
    ensures TryAll(xs, f).Ok?
  {
    if xs != [] {
      assert f(xs[0]).Ok?;
      assert forall i | 0 <= i < |xs[1..]| :: xs[1..][i] == xs[i + 1];
      TryAllSucceeds(xs[1..], f);
    }
  }

  /** A comprehension succeeds exactly when no element raises. */
  lemma TryAllOk<T>(xs: seq<string>, f: string -> Result<T, DataError>)
    ensures TryAll(xs, f).Ok? <==> forall i | 0 <= i < |xs| :: f(xs[i]).Ok?
  {
    if TryAll(xs, f).Ok? {
      forall i | 0 <= i < |xs|
        ensures f(xs[i]).Ok?
      {
        TryAllValues(xs, f, i);
      }
    } else if forall i | 0 <= i < |xs| :: f(xs[i]).Ok? {
      TryAllSucceeds(xs, f);
    }
  }

  /**
   * The error a comprehension raises is the error of the first element
   * that raises: every element before it gives a result.
   */
  lemma {:induction false} TryAllError<T>(xs: seq<string>, f: string -> Result<T, DataError>)
    requires TryAll(xs, f).Err?
    ensures exists i | 0 <= i < |xs| :: f(xs[i]) == Err(TryAll(xs, f).error) && FirstFailure(xs, f, i)
  {
    if f(xs[0]).Ok? {
      TryAllError(xs[1..], f);
      var i :| 0 <= i < |xs[1..]| && f(xs[1..][i]) == Err(TryAll(xs[1..], f).error) && FirstFailure(xs[1..], f, i);
      assert xs[1..][i] == xs[i + 1];
      forall j | 0 < j < i + 1
        ensures f(xs[j]).Ok?
      {
        assert xs[j] == xs[1..][j - 1];
      }
      assert FirstFailure(xs, f, i + 1);
    } else {
      assert f(xs[0]) == Err(TryAll(xs, f).error);
      assert FirstFailure(xs, f, 0);
    }
  }

  /** Every element before position `i` gives a result. */
  predicate FirstFailure<T>(xs: seq<string>, f: string -> Result<T, DataError>, i: nat)
    requires i <= |xs|
  {
    forall j | 0 <= j < i :: f(xs[j]).Ok?
  }

  lemma ParseSpacedAt(f: Face, i: nat)
    requires i < |f|
    ensures ParseInt(Spaced(IndexNumerals(f))[i]) == Ok(f[i])
  {
    if i == 0 {
      ParseIntOfDecimal("", f[0], "");
      assert "" + Decimal(f[0]) + "" == Decimal(f[0]);
    } else {
      ParseIntOfDecimal(" ", f[i], "");
      assert " " + Decimal(f[i]) + "" == " " + Decimal(f[i]);
    }
  }

  lemma ParseSpacedNumerals(f: Face)
    ensures ParseAll(Spaced(IndexNumerals(f))) == Ok(f)
  {
    forall i | 0 <= i < |f|
      ensures ParseInt(Spaced(IndexNumerals(f))[i]) == Ok(f[i])
    {
      ParseSpacedAt(f, i);
    }
    TryAllOf(Spaced(IndexNumerals(f)), ParseInt, f);
  }

  lemma NumeralsInGroup(f: Face)
    ensures forall i | 0 <= i < |f| :: AllIn(IndexNumerals(f)[i], FaceGroup)
    ensures forall i | 0 <= i < |f| :: Lacks(Spaced(IndexNumerals(f))[i], ',')
  {
    forall i | 0 <= i < |f|
      ensures AllIn(IndexNumerals(f)[i], FaceGroup)
      ensures Lacks(Spaced(IndexNumerals(f))[i], ',')
    {
      NumeralChars(f[i]);
    }
  }

  lemma NumeralChars(n: nat)
    ensures AllIn(Decimal(n), FaceGroup)
    ensures Lacks(Decimal(n), ',') && Lacks(" " + Decimal(n), ',')
  {
    var d := Decimal(n);
    forall j | 0 <= j < |d|
      ensures InClass(d[j], FaceGroup) && d[j] != ','
    {
      assert InClass(d[j], Digit);
    }
  }

  /** Every non-empty face survives printing and decoding unchanged, in order. */
  lemma DecodeEchoFace(f: Face)
    requires f != []
    ensures IsGroup(EchoFace(f))
    ensures DecodeFace(EchoFace(f)) == Ok(f)
  {
    var items := IndexNumerals(f);
    var body := Join(items, ", ");
    assert EchoFace(f) == "[" + body + "]";
    NumeralsInGroup(f);
    assert AllIn(", ", FaceGroup);
    JoinAllIn(items, ", ", FaceGroup);
    DecodeGroup(body);
    JoinSpaced(items);
    assert body == Join(Spaced(items), [',']);
    SplitJoin(Spaced(items), ',');
    ParseSpacedNumerals(f);
  }

  // ---------------------------------------------------------------------------
  // The whole block

  /** How OpenSCAD prints a face list: `[[0, 1, 2], [0, 2, 3]]`. */
  function EchoFaces(fs: seq<Face>): string {
    EchoList(EchoFaceList(fs))
  }

  function EchoFaceList(fs: seq<Face>): (r: seq<string>)
    ensures |r| == |fs| && forall i | 0 <= i < |fs| :: r[i] == EchoFace(fs[i])
  {
    seq(|fs|, i requires 0 <= i < |fs| => EchoFace(fs[i]))
  }

  /** Groups joined by `, ` and closed by `]` are found one by one, in order. */
  lemma {:induction false} FindGroupsOfJoin(groups: seq<string>)
    requires |groups| >= 1 && forall i | 0 <= i < |groups| :: IsGroup(groups[i])
    ensures FindGroups(Join(groups, ", ") + "]") == groups
  {
    var g := groups[0];
    if |groups| == 1 {
      FindGroupsCons(g, "]");
      FindGroupsSkip(']', "");
      assert "]" == [']'] + "";
    } else {
      var rest := Join(groups[1..], ", ") + "]";
      assert Join(groups, ", ") + "]" == g + ([','] + ([' '] + rest));
      FindGroupsCons(g, [','] + ([' '] + rest));
      FindGroupsSkip(',', [' '] + rest);
      FindGroupsSkip(' ', rest);
      FindGroupsOfJoin(groups[1..]);
      assert [g] + groups[1..] == groups;
    }
  }

  /**
   * In a printed face list the outer brackets never form a token: the tokens
   * are the printed faces, in order.
   */
  lemma FindGroupsOfEchoList(groups: seq<string>)
    requires |groups| >= 1 && forall i | 0 <= i < |groups| :: IsGroup(groups[i])
    ensures FindGroups(EchoList(groups)) == groups
  {
    var x := Join(groups, ", ") + "]";
    assert x[0] == groups[0][0] == '[';
    GroupAtNested(x);
    assert EchoList(groups) == "[" + x;
    assert ("[" + x)[1..] == x;
    FindGroupsOfJoin(groups);
  }

  predicate AllNonEmpty(fs: seq<Face>) {
    forall i | 0 <= i < |fs| :: fs[i] != []
  }

  lemma EchoFacesGroups(fs: seq<Face>)
    requires AllNonEmpty(fs)
    ensures forall i | 0 <= i < |fs| :: IsGroup(EchoFaceList(fs)[i])
    ensures forall i | 0 <= i < |fs| :: DecodeFace(EchoFaceList(fs)[i]) == Ok(fs[i])
  {
    forall i | 0 <= i < |fs|
      ensures IsGroup(EchoFaceList(fs)[i]) && DecodeFace(EchoFaceList(fs)[i]) == Ok(fs[i])
    {
      DecodeEchoFace(fs[i]);
    }
  }

  /** A printed, non-empty list of non-empty faces decodes to itself. */
  lemma DecodeEchoFaces(fs: seq<Face>)
    requires fs != [] && AllNonEmpty(fs)
    ensures DecodeFaces(FindGroups(EchoFaces(fs))) == Ok(fs)
  {
    EchoFacesGroups(fs);
    FindGroupsOfEchoList(EchoFaceList(fs));
    TryAllOf(EchoFaceList(fs), DecodeFace, fs);
  }

  lemma GroupInBlock(t: string)
    requires IsGroup(t)
    ensures AllIn(t, FaceBlock)
  {
    forall j | 0 <= j < |t|
      ensures InClass(t[j], FaceBlock)
    {
      if 0 < j < |t| - 1 {
        assert t[j] == t[1..|t| - 1][j - 1];
      }
    }
  }

  lemma BracketedInBlock(x: string)
    requires AllIn(x, FaceBlock)
    ensures AllIn("[" + x + "]", FaceBlock)
  {
    var b := "[" + x + "]";
    forall j | 0 <= j < |b|
      ensures InClass(b[j], FaceBlock)
    {
      if 0 < j < |b| - 1 {
        assert b[j] == x[j - 1];
      }
    }
  }

  lemma BlockLacksMarker(b: string)
    requires AllIn(b, FaceBlock)
    ensures Lacks(b, '<')
  {
    forall j | 0 <= j < |b|
      ensures b[j] != '<'
    {
      assert InClass(b[j], FaceBlock);
    }
  }

  /** A printed face list fits the block pattern and holds no `<`. */
  lemma EchoFacesInBlock(fs: seq<Face>)
    requires AllNonEmpty(fs)
    ensures AllIn(EchoFaces(fs), FaceBlock)
    ensures Lacks(EchoFaces(fs), '<')
  {
    var groups := EchoFaceList(fs);
    EchoFacesGroups(fs);
    forall i | 0 <= i < |groups|
      ensures AllIn(groups[i], FaceBlock)
    {
      GroupInBlock(groups[i]);
    }
    assert AllIn(", ", FaceBlock);
    JoinAllIn(groups, ", ", FaceBlock);
    BracketedInBlock(Join(groups, ", "));
    BlockLacksMarker(EchoFaces(fs));
  }

  lemma FacesMarkerUnbordered()
    ensures Unbordered(FacesMarker) && !InClass(FacesMarker[0], FaceBlock)
  {
  }

  /**
   * OpenSCAD output that prints a non-empty list of non-empty faces between
   * two `<FACES>` markers, after text that holds no marker, decodes to
   * exactly those faces, in order.
   */
  lemma FacesOfEchoedOutput(pre: string, fs: seq<Face>, post: string)
    requires Absent(pre, FacesMarker)
    requires fs != [] && AllNonEmpty(fs)
    ensures FacesOfOutput(pre + FacesMarker + EchoFaces(fs) + FacesMarker + post) == Ok(fs)
  {
    var b := EchoFaces(fs);
    var x := FacesMarker + b + FacesMarker + post;
    assert pre + FacesMarker + b + FacesMarker + post == pre + x;
    assert x[..|FacesMarker + b + FacesMarker|] == FacesMarker + b + FacesMarker;
    FacesMarkerUnbordered();
    EchoFacesInBlock(fs);
    ExtractOf(pre, x, b, FacesMarker, FaceBlock);
    DecodeEchoFaces(fs);
  }

  /** Decoding reports a missing block only when no block occurs anywhere. */
  lemma FacesBlockFound(output: string, i: nat, w: string)
    requires AllIn(w, FaceBlock) && i <= |output|
    requires StartsWith(output[i..], FacesMarker + w + FacesMarker)
    ensures FacesOfOutput(output) != Err(MissingFacesBlock)
  {
    FacesMarkerUnbordered();
    SearchFindsBlock(output, FacesMarker, FaceBlock, i, w);
  }

  /** Two groups separated by a comma inside an outer pair of brackets. */
  lemma FindGroupsOfPair(g1: string, g2: string)
    requires IsGroup(g1) && IsGroup(g2)
    ensures FindGroups("[" + g1 + "," + g2 + "]") == [g1, g2]
  {
    var y := [','] + (g2 + "]");
    FindGroupsOfLast(g2);
    FindGroupsSkip(',', g2 + "]");
    FindGroupsCons(g1, y);
    FindGroupsNested(g1 + y);
    PairShape(g1, g2);
  }

  lemma PairShape(g1: string, g2: string)
    ensures "[" + g1 + "," + g2 + "]" == "[" + (g1 + ([','] + (g2 + "]")))
  {
  }

  lemma FindGroupsOfLast(g: string)
    requires IsGroup(g)
    ensures FindGroups(g + "]") == [g]
  {
    FindGroupsCons(g, "]");
    assert "]" == [']'] + "";
    FindGroupsSkip(']', "");
  }

  /** An opening bracket just before a group is skipped. */
  lemma FindGroupsNested(x: string)
    requires x != [] && x[0] == '['
    ensures FindGroups("[" + x) == FindGroups(x)
  {
    GroupAtNested(x);
    assert ("[" + x)[1..] == x;
  }
}
