/**
 * `get_polyhedron_list` in iconhedra.py: find the `<LIST> ... <LIST>` block
 * in OpenSCAD's output and split it into maximal runs of word characters.
 */
module Names {
  import opened Wrappers
  import opened Text
  import opened Regex

  const ListMarker: string := "<LIST>"

  /** `re.search` found no block, so `.group` raises. */
  datatype ListError = MissingListBlock

  /** The polyhedron names listed in OpenSCAD's output. */
  function PolyhedronList(output: string): (r: Result<seq<string>, ListError>)
    ensures r.Ok? ==> forall i | 0 <= i < |r.value| :: r.value[i] != [] && AllIn(r.value[i], Word)
  {
    ListMarkerUnbordered();
    match Extract(output, ListMarker, ListBlock)
    case None => Err(MissingListBlock)
    case Some(body) => Ok(FindWords(body))
  }

  /** The text between the markers of the block `get_polyhedron_list` finds. */
  function ListBody(output: string): string
    requires Search(output, ListMarker, ListBlock).Some?
  {
    ListMarkerUnbordered();
    Extract(output, ListMarker, ListBlock).value
  }

  lemma ListMarkerUnbordered()
    ensures Unbordered(ListMarker) && !InClass(ListMarker[0], ListBlock)
  {
  }

  /**
   * The names are the maximal runs of word characters of the block, in
   * order, and together they hold every word character of the block.
   */
  lemma NamesAreMaximalRuns(output: string)
    requires PolyhedronList(output).Ok?
    ensures Search(output, ListMarker, ListBlock).Some?
    ensures PolyhedronList(output).value == RunsAtEveryStart(ListBody(output), false)
    ensures Concat(PolyhedronList(output).value) == WordChars(ListBody(output))
  {
    FindWordsAreMaximalRuns(ListBody(output));
    FindWordsKeepsWordChars(ListBody(output));
  }

  /**
   * No name holds a quote, a comma, a bracket or whitespace; underscores,
   * letters and digits are kept.
   */
  lemma NamesHoldNoPunctuation(output: string, i: nat, j: nat)
    requires PolyhedronList(output).Ok?
    requires i < |PolyhedronList(output).value| && j < |PolyhedronList(output).value[i]|
    ensures var c := PolyhedronList(output).value[i][j];
      c != '"' && c != ',' && c != '[' && c != ']' && !IsRegexSpace(c)
  {
    assert InClass(PolyhedronList(output).value[i][j], Word);
  }

  /** The list is reported missing only when no block occurs anywhere. */
  lemma ListBlockFound(output: string, i: nat, w: string)
    requires AllIn(w, ListBlock) && i <= |output|
    requires StartsWith(output[i..], ListMarker + w + ListMarker)
    ensures PolyhedronList(output).Ok?
  {
    ListMarkerUnbordered();
    SearchFindsBlock(output, ListMarker, ListBlock, i, w);
  }

  // ---------------------------------------------------------------------------
  // Printed lists

  /** A name in double quotes, as OpenSCAD prints a string inside a vector. */
  function Quote(name: string): string {
    "\"" + name + "\""
  }

  /** How OpenSCAD prints a list of names: `["tetrahedron", "cube"]`. */
  function EchoNames(names: seq<string>): string {
    EchoList(QuotedList(names))
  }

  function QuotedList(names: seq<string>): (r: seq<string>)
    ensures |r| == |names| && forall i | 0 <= i < |names| :: r[i] == Quote(names[i])
  {
    seq(|names|, i requires 0 <= i < |names| => Quote(names[i]))
  }

  predicate IsName(n: string) {
    n != [] && AllIn(n, Word)
  }

  lemma FindWordsOfQuote(n: string, rest: string)
    requires IsName(n)
    ensures FindWords(Quote(n) + rest) == [n] + FindWords(rest)
  {
    assert Quote(n) + rest == ['"'] + (n + (['"'] + rest));
    FindWordsSkip('"', n + (['"'] + rest));
    FindWordsCons(n, ['"'] + rest);
    FindWordsSkip('"', rest);
  }

  /** The quoted names joined by `, ` and closed by `]` give back the names. */
  lemma {:induction false} FindWordsOfJoin(names: seq<string>)
    requires forall i | 0 <= i < |names| :: IsName(names[i])
    ensures FindWords(Join(QuotedList(names), ", ") + "]") == names
  {
    var q := QuotedList(names);
    if |names| == 0 {
      FindWordsSkip(']', "");
      assert Join(q, ", ") + "]" == [']'] + "";
    } else if |names| == 1 {
      FindWordsOfQuote(names[0], "]");
      FindWordsSkip(']', "");
      assert "]" == [']'] + "";
    } else {
      var rest := Join(QuotedList(names[1..]), ", ") + "]";
      assert q[1..] == QuotedList(names[1..]);
      assert Join(q, ", ") + "]" == Quote(names[0]) + ([','] + ([' '] + rest));
      FindWordsOfQuote(names[0], [','] + ([' '] + rest));
      FindWordsSkip(',', [' '] + rest);
      FindWordsSkip(' ', rest);
      FindWordsOfJoin(names[1..]);
      assert [names[0]] + names[1..] == names;
    }
  }

  lemma QuotedInBlock(names: seq<string>)
    requires forall i | 0 <= i < |names| :: IsName(names[i])
    ensures AllIn(EchoNames(names), ListBlock)
  {
    var q := QuotedList(names);
    forall i | 0 <= i < |q|
      ensures AllIn(q[i], ListBlock)
    {
      var n := names[i];
      forall j | 0 <= j < |q[i]|
        ensures InClass(q[i][j], ListBlock)
      {
        if 0 < j < |q[i]| - 1 {
          assert q[i][j] == n[j - 1];
          assert InClass(n[j - 1], Word);
        }
      }
    }
    assert AllIn(", ", ListBlock);
    JoinAllIn(q, ", ", ListBlock);
    var x := Join(q, ", ");
    var b := EchoNames(names);
    forall j | 0 <= j < |b|
      ensures InClass(b[j], ListBlock)
    {
      if 0 < j < |b| - 1 {
        assert b[j] == x[j - 1];
      }
    }
  }

  /**
   * OpenSCAD output that prints a list of names between two `<LIST>` markers,
   * after text that holds no marker, gives back exactly those names, in
   * order, underscores included.
   */
  lemma ListOfEchoedOutput(pre: string, names: seq<string>, post: string)
    requires Absent(pre, ListMarker)
    requires forall i | 0 <= i < |names| :: IsName(names[i])
    ensures PolyhedronList(pre + ListMarker + EchoNames(names) + ListMarker + post) == Ok(names)
  {
    var b := EchoNames(names);
    var x := ListMarker + b + ListMarker + post;
    assert pre + ListMarker + b + ListMarker + post == pre + x;
    assert x[..|ListMarker + b + ListMarker|] == ListMarker + b + ListMarker;
    ListMarkerUnbordered();
    QuotedInBlock(names);
    ExtractOf(pre, x, b, ListMarker, ListBlock);
    var y := Join(QuotedList(names), ", ") + "]";
    assert b == "[" + y;
    FindWordsSkip('[', y);
    FindWordsOfJoin(names);
  }
}
