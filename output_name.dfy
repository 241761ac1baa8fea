/**
 * The main block of iconhedra.py: which action the command line selects,
 * and the name of the SVG file written for a polyhedron or a `.scad` file.
 * Paths follow POSIX `os.path` (separator `/`, extension separator `.`).
 */
module OutputName {
  import opened Wrappers
  import opened Text

  // ---------------------------------------------------------------------------
  // os.path.basename and os.path.splitext

  /** `s.rfind(c)`: the last index of `c` in `s`, if any. */
  function LastIndex(s: string, c: char): (r: Option<nat>)
    ensures r.None? ==> Lacks(s, c)
    ensures r.Some? ==> r.value < |s| && s[r.value] == c && Lacks(s[r.value + 1..], c)
    decreases |s|
  {
    if s == [] then None
    else if s[|s| - 1] == c then Some(|s| - 1)
    else
      match LastIndex(s[..|s| - 1], c)
      case None => None
      case Some(i) =>
        assert s[i + 1..] == s[..|s| - 1][i + 1..] + [s[|s| - 1]];
        Some(i)
  }

  /** `os.path.basename`: what follows the last `/`. */
  function Basename(path: string): (r: string)
    ensures Lacks(r, '/')
    ensures |r| <= |path| && path[|path| - |r|..] == r
    ensures |r| < |path| ==> path[|path| - |r| - 1] == '/'
  {
    match LastIndex(path, '/')
    case None => path
    case Some(i) => path[i + 1..]
  }

  predicate AllDots(s: string) {
    forall i | 0 <= i < |s| :: s[i] == '.'
  }

  /**
   * `os.path.splitext` on a name without `/`: the extension runs from the
   * last `.` to the end, unless only dots come before that `.` (`.bashrc`,
   * `..scad`), in which case there is no extension.
   */
  function SplitExt(name: string): (r: (string, string))
    ensures r.0 + r.1 == name
    ensures r.1 == [] || (r.1[0] == '.' && Lacks(r.1[1..], '.'))
    ensures r.1 != [] ==> !AllDots(r.0)
  {
    match LastIndex(name, '.')
    case None => (name, "")
    case Some(d) =>
      if AllDots(name[..d]) then (name, "")
      else
        assert name[..d] + name[d..] == name;
        (name[..d], name[d..])
  }

  /**
   * The polyhedron name taken from `--file`: its base name without
   * extension. It holds no `/`, and what it leaves of the base name is empty
   * or a `.` followed by no other `.`.
   */
  function Stem(file: string): (r: string)
    ensures Lacks(r, '/')
    ensures |r| <= |Basename(file)| && Basename(file)[..|r|] == r
    ensures var ext := Basename(file)[|r|..]; ext == [] || (ext[0] == '.' && Lacks(ext[1..], '.'))
  {
    var b := Basename(file);
    var p := SplitExt(b);
    assert b[..|p.0|] == p.0 && b[|p.0|..] == p.1;
    p.0
  }

  /** A name with no `/` keeps everything up to its extension. */
  lemma BasenameOfPath(dir: string, name: string)
    requires Lacks(name, '/')
    ensures Basename(dir + "/" + name) == name
  {
    var p := dir + "/" + name;
    assert p[|dir|] == '/';
    assert p[|p| - |name|..] == name;
  }

  lemma BasenameIdempotent(path: string)
    ensures Basename(Basename(path)) == Basename(path)
  {
    assert LastIndex(Basename(path), '/') == None;
  }

  /**
   * A root that is not just dots, followed by a `.`-extension holding no
   * other `.`, splits back into that root and extension.
   */
  lemma SplitExtOf(root: string, ext: string)
    requires !AllDots(root) && ext != [] && ext[0] == '.' && Lacks(ext[1..], '.')
    ensures SplitExt(root + ext) == (root, ext)
  {
    var name := root + ext;
    assert name[|root|] == '.';
    assert name[..|root|] == root;
  }

  /** A name that is only dots before its last `.` has no extension. */
  lemma SplitExtLeadingDots(dots: string, rest: string)
    requires AllDots(dots) && Lacks(rest, '.')
    ensures SplitExt(dots + "." + rest) == (dots + "." + rest, "")
  {
    var name := dots + "." + rest;
    assert name[|dots|] == '.';
    assert name[..|dots|] == dots;
  }

  /** A name with no `.` is its own stem. */
  lemma SplitExtNoDot(name: string)
    requires Lacks(name, '.')
    ensures SplitExt(name) == (name, "")
  {
  }

  // ---------------------------------------------------------------------------
  // The output file name

  /** `if args.animation`: only an absent or a zero duration counts as false. */
  function IsAnimated(duration: Option<real>): (r: bool)
    ensures r <==> duration != None && duration != Some(0.0)
  {
    duration.Some? && duration.value != 0.0
  }

  const AnimPrefix: string := "anim_"
  const IconPrefix: string := "icon_"
  const SvgSuffix: string := ".svg"

  function OutputFileName(animated: bool, name: string): (r: string)
    ensures |r| == |name| + 9
    ensures r[|r| - 4..] == SvgSuffix
    ensures r[5..|r| - 4] == name
    ensures r[..5] == (if animated then AnimPrefix else IconPrefix)
  {
    (if animated then AnimPrefix else IconPrefix) + name + SvgSuffix
  }

  /** Reading an output file name back: which kind of icon, for which name. */
  function ParseOutputFileName(f: string): (r: Option<(bool, string)>)
  {
    if |f| < 9 || f[|f| - 4..] != SvgSuffix then None
    else if f[..5] == AnimPrefix then Some((true, f[5..|f| - 4]))
    else if f[..5] == IconPrefix then Some((false, f[5..|f| - 4]))
    else None
  }

  /** The two kinds of file name never collide, and the name is recoverable. */
  lemma ParseOutputFileNameOf(animated: bool, name: string)
    ensures ParseOutputFileName(OutputFileName(animated, name)) == Some((animated, name))
  {
  }

  /** Every file name that reads back was produced from what it reads back to. */
  lemma OutputFileNameOfParse(f: string)
    requires ParseOutputFileName(f).Some?
    ensures var p := ParseOutputFileName(f).value;
      OutputFileName(p.0, p.1) == f
  {
    var p := ParseOutputFileName(f).value;
    assert f == f[..5] + f[5..|f| - 4] + f[|f| - 4..];
  }

  lemma OutputFileNameInjective(a1: bool, n1: string, a2: bool, n2: string)
    requires OutputFileName(a1, n1) == OutputFileName(a2, n2)
    ensures a1 == a2 && n1 == n2
  {
    ParseOutputFileNameOf(a1, n1);
    ParseOutputFileNameOf(a2, n2);
  }

  // ---------------------------------------------------------------------------
  // The main block

  /** The parsed command line; orientation and rotation axis are left out. */
  datatype Args = Args(
    polyhedron: Option<string>,
    list: bool,
    file: Option<string>,
    animation: Option<real>,
    color: string)

  datatype Action =
    | ConflictError
    | ListPolyhedra
    | Generate(outputFile: string, color: string, polyhedron: Option<string>,
               file: Option<string>, animation: Option<real>)
    | Help

  /**
   * The name that goes into the output file name: the file's stem when a
   * file is given, which holds no `/`, and otherwise the polyhedron name,
   * which is not empty.
   */
  function NamePart(args: Args): (r: string)
    requires Given(args.polyhedron) || Given(args.file)
    ensures Given(args.file) ==> r == Stem(args.file.value) && Lacks(r, '/')
    ensures !Given(args.file) ==> r == args.polyhedron.value && r != []
  {
    if Given(args.file) then Stem(args.file.value) else args.polyhedron.value
  }

  /** What the main block does for the parsed command line. */
  function Dispatch(args: Args): (r: Action)
    ensures r == ConflictError <==> Given(args.file) && Given(args.polyhedron)
    ensures r == ListPolyhedra <==> args.list && !(Given(args.file) && Given(args.polyhedron))
    ensures r == Help <==> !args.list && !Given(args.file) && !Given(args.polyhedron)
    ensures r.Generate? ==> r.outputFile == OutputFileName(IsAnimated(args.animation), NamePart(args))
    ensures r.Generate? ==>
      r.color == args.color && r.polyhedron == args.polyhedron &&
      r.file == args.file && r.animation == args.animation
  {
    if Given(args.file) && Given(args.polyhedron) then ConflictError
    else if args.list then ListPolyhedra
    else if Given(args.polyhedron) || Given(args.file) then
      Generate(OutputFileName(IsAnimated(args.animation), NamePart(args)),
               args.color, args.polyhedron, args.file, args.animation)
    else Help
  }

  /** With `--file`, the icon is named after the file's stem. */
  lemma DispatchFile(dir: string, root: string, ext: string, args: Args)
    requires Lacks(root, '/') && Lacks(ext, '/') && !AllDots(root)
    requires ext != [] && ext[0] == '.' && Lacks(ext[1..], '.')
    requires args.file == Some(dir + "/" + (root + ext)) && !Given(args.polyhedron) && !args.list
    ensures Dispatch(args).Generate?
    ensures Dispatch(args).outputFile == OutputFileName(IsAnimated(args.animation), root)
  {
    LacksAppend(root, ext, '/');
    BasenameOfPath(dir, root + ext);
    SplitExtOf(root, ext);
  }

  lemma LacksAppend(s: string, t: string, c: char)
    requires Lacks(s, c) && Lacks(t, c)
    ensures Lacks(s + t, c)
  {
    forall i | 0 <= i < |s + t|
      ensures (s + t)[i] != c
    {
      if i >= |s| {
        assert (s + t)[i] == t[i - |s|];
      }
    }
  }

  /** A zero duration gives a static icon, whatever else is asked. */
  lemma ZeroDurationIsStatic(args: Args)
    requires args.animation == Some(0.0)
    requires Dispatch(args).Generate?
    ensures Dispatch(args).outputFile[..5] == IconPrefix
  {
  }

  lemma BasenameExample()
    ensures Basename("shapes/my.cube.scad") == "my.cube.scad"
  {
    assert "shapes/my.cube.scad" == "shapes" + "/" + "my.cube.scad";
    BasenameOfPath("shapes", "my.cube.scad");
  }

  lemma SplitExtExample()
    ensures SplitExt("my.cube.scad") == ("my.cube", ".scad")
  {
    assert "my.cube.scad" == "my.cube" + ".scad";
    assert !AllDots("my.cube") by { assert "my.cube"[0] == 'm'; }
    assert ".scad"[1..] == "scad";
    SplitExtOf("my.cube", ".scad");
  }

  /** Only the last extension is dropped. */
  lemma StemOfDottedName()
    ensures Stem("shapes/my.cube.scad") == "my.cube"
  {
    BasenameExample();
    SplitExtExample();
  }

  /** A name that starts with dots and has no other `.` keeps its dots (`.hidden`, `..scad`). */
  lemma StemOfDotted(name: string, dots: string, rest: string)
    requires name == dots + "." + rest
    requires Lacks(name, '/') && AllDots(dots) && Lacks(rest, '.')
    ensures Stem(name) == name
  {
    BasenameOfName(name);
    SplitExtLeadingDots(dots, rest);
  }

  /** A name without `/` is its own base name. */
  lemma BasenameOfName(name: string)
    requires Lacks(name, '/')
    ensures Basename(name) == name
  {
    assert LastIndex(name, '/') == None;
  }

  lemma StemOfDirectory()
    ensures Stem("dir/") == ""
  {
    assert "dir/" == "dir" + "/" + "";
    BasenameOfPath("dir", "");
  }

  /** With a polyhedron name and no file, the icon is named after the polyhedron. */
  lemma DispatchNamed(name: string, list: bool, animation: Option<real>, color: string)
    requires name != [] && !list
    ensures Dispatch(Args(Some(name), list, None, animation, color))
      == Generate(OutputFileName(IsAnimated(animation), name), color, Some(name), None, animation)
  {
  }

  /** An empty name counts as no name at all. */
  lemma DispatchEmptyName()
    ensures Dispatch(Args(Some(""), false, None, None, "#3498db")) == Help
  {
  }
}
