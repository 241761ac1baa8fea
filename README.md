# Iconhedra text decoding, modelled in Dafny

`extensions/iconhedra/iconhedra.py` draws polyhedron icons as SVG. The
geometry comes from OpenSCAD: the script runs `openscad` and reads what it
echoes. The icon's colour and file name come from the command line. This
project models the parts of the script that turn text into data:

- **Colour parsing.** `hex_to_rgb` strips every leading `#` and reads
  characters 0–1, 2–3 and 4–5 of the rest as base-16 bytes. Module `Color`.
- **Face decoding.** `get_polyhedron_data` first selects the source, the
  `.scad` file or a library name, and raises `ValueError` when neither is
  given. It then finds the `<FACES> … <FACES>` block in OpenSCAD's output
  and drops the markers. Every innermost `[ … ]` group of digits,
  whitespace and commas becomes a face: strip the brackets, split on `,`,
  apply `int` to each piece. Module `Faces`.
- **Name listing.** `get_polyhedron_list` finds the `<LIST> … <LIST>`
  block and returns its maximal runs of word characters. Module `Names`.
- **Command dispatch and output name.** The main block rejects a file
  given together with a name, lists the polyhedra, or generates an icon.
  The icon is written to `anim_<name>.svg` or `icon_<name>.svg`. With
  `--file`, `<name>` is the file's base name without its extension.
  Module `OutputName`.

The Python library pieces these rely on are written out as functions over
`string`:

- `str.strip`, `str.lstrip`, `str.split`, `str.replace`, `int` in bases 10
  and 16, `os.path.basename` and `os.path.splitext` are in modules `Text`,
  `Numerals` and `OutputName`.
- `re.search` and `re.findall` for the four patterns used are in module
  `Regex`.

Each scanner that jumps over what it has matched is proved equal to an
independent definition. That definition tries the pattern at every
position.

Every decoder is paired with the printer OpenSCAD uses (`echo` of a vector
prints `[a, b, c]`), and a round-trip lemma connects the two:

- printed faces decode back to the same faces, in order;
- printed names come back as the same names, in order;
- a colour formatted as `#rrggbb` parses back to itself;
- an output file name parses back to its kind and its polyhedron name.

Errors are values:

- `Result` with `DataError` for `ValueError` and for the `AttributeError`
  of `.group` on a failed search;
- `ColorError` for the empty slice `int('', 16)` rejects;
- `Action.ConflictError` and `Action.Help` for the two `sys.exit(1)`
  paths.

Files: `wrappers.dfy` (Option, Result), `text.dfy`, `numerals.dfy`,
`regex.dfy`, `color.dfy`, `faces.dfy`, `names.dfy`, `output_name.dfy`.

## Model

| member | source | states |
|---|---|---|
| Text.StripLeft | extensions/iconhedra/iconhedra.py:94 | `lstrip(cs)` returns a suffix of its input; every removed character is in `cs`; the result is empty or starts outside `cs` |
| Text.StripRight | extensions/iconhedra/iconhedra.py:52 | the right-hand half of `strip('[]')`: a prefix of the input; every removed character is in the set; the result is empty or ends outside it |
| Text.Strip | extensions/iconhedra/iconhedra.py:52 | `strip(cs)` returns the part of its input between a leading and a trailing run of characters of `cs`; that part is empty or starts and ends outside `cs` |
| Text.StripClean | extensions/iconhedra/iconhedra.py:52 | text that starts and ends outside the set is left unchanged by `strip` |
| Text.StripSurrounded | extensions/iconhedra/iconhedra.py:52 | stripping text whose ends lie outside the set removes exactly the surrounding characters from the set |
| Text.Split | extensions/iconhedra/iconhedra.py:52 | `split(',')` gives at least one piece; the pieces joined with the separator give back the input; no piece holds the separator |
| Text.SplitCount | extensions/iconhedra/iconhedra.py:52 | the number of pieces is the number of separators plus one |
| Text.SplitConcat | extensions/iconhedra/iconhedra.py:52 | splitting at one separator gives the pieces of the text before it followed by the pieces of the text after it |
| Text.SplitJoin | extensions/iconhedra/iconhedra.py:52 | splitting a join of separator-free pieces gives those pieces back |
| Text.SplitAfterPiece | extensions/iconhedra/iconhedra.py:52 | a separator-free piece followed by the separator splits off as the first piece |
| Text.JoinSpaced | extensions/iconhedra/iconhedra.py:52 | joining with `, ` is joining with `,` after a space in front of every item but the first |
| Text.RemoveAll | extensions/iconhedra/iconhedra.py:50 | `replace(m, '')` never lengthens the text |
| Text.RemoveDelimiters | extensions/iconhedra/iconhedra.py:50 | removing a marker around a body that cannot hold the marker's first character leaves the body |
| Numerals.DigitValue | extensions/iconhedra/iconhedra.py:95 | a hexadecimal digit's value is below 16, and below 10 exactly for `0`-`9` |
| Numerals.Value | extensions/iconhedra/iconhedra.py:95 | an `n`-digit numeral in base `b` is below `b`^`n` |
| Numerals.ValueOfTwo | extensions/iconhedra/iconhedra.py:95 | a two-digit numeral is base times the high digit plus the low digit |
| Numerals.Decimal | extensions/iconhedra/iconhedra.py:52 | how OpenSCAD prints an index, the inverse of the `int` on this line: non-empty, all digits, and reads back as `n` |
| Numerals.HexChar | extensions/iconhedra/iconhedra.py:95 | the lower-case hexadecimal digit for a value below 16 has that value |
| Numerals.ValueIgnoresCase | extensions/iconhedra/iconhedra.py:95 | lower-casing a hexadecimal numeral does not change its value |
| Regex.RunLen | extensions/iconhedra/iconhedra.py:48 | the length of the longest prefix inside a character class: all of it is in the class and the next character is not |
| Regex.RunLenOf | extensions/iconhedra/iconhedra.py:48 | a class run followed by a character outside the class has exactly the run's length |
| Regex.BlockAt | extensions/iconhedra/iconhedra.py:48 | what the pattern `M[k]*M` matches at the start of the text is at least two markers long and lies inside the text |
| Regex.BlockAtIsBlock | extensions/iconhedra/iconhedra.py:48 | what the pattern matches at the start is a block: marker, run of class characters, marker |
| Regex.BlockAtOf | extensions/iconhedra/iconhedra.py:48 | every block at the start of the text is matched, with its full length |
| Regex.Search | extensions/iconhedra/iconhedra.py:48 | `re.search` reports a span inside the text |
| Regex.SearchMatches | extensions/iconhedra/iconhedra.py:48 | the reported span holds a block |
| Regex.SearchIsLeftmost | extensions/iconhedra/iconhedra.py:48 | no block starts before the reported span |
| Regex.SearchFindsBlock | extensions/iconhedra/iconhedra.py:48 | a block anywhere in the text is found, at its position or earlier |
| Regex.SearchSkipsPrefix | extensions/iconhedra/iconhedra.py:48 | marker-free text in front of a marker shifts the match without changing it |
| Regex.FindBlock | extensions/iconhedra/iconhedra.py:48 | after marker-free text, a block is the match `re.search` reports, at that position and with that length |
| Regex.BlockBody | extensions/iconhedra/iconhedra.py:50 | removing the markers from a matched block leaves the run between them |
| Regex.Extract | extensions/iconhedra/iconhedra.py:48-50 | `re.search(...).group(0).replace(marker, '')` succeeds exactly when the search does, and yields class characters only |
| Regex.ExtractIsBetweenMarkers | extensions/iconhedra/iconhedra.py:48-50 | what `Extract` yields is the text between the markers of the reported match |
| Regex.ExtractOf | extensions/iconhedra/iconhedra.py:48-50 | after marker-free text, the body of a block is what `Extract` yields |
| Regex.GroupAt | extensions/iconhedra/iconhedra.py:50 | what `\[[\d\s,]*\]` matches at the start is a bracket group |
| Regex.GroupAtOf | extensions/iconhedra/iconhedra.py:50 | every group at the start is matched, with its full length |
| Regex.GroupAtNested | extensions/iconhedra/iconhedra.py:50 | an outer `[` followed by another `[` never starts a match |
| Regex.FindGroups | extensions/iconhedra/iconhedra.py:50 | every token `re.findall` returns is a bracket group |
| Regex.FindGroupsAtEveryPosition | extensions/iconhedra/iconhedra.py:50 | the scan that resumes after each match equals the reference that tries every position and skips positions inside earlier matches |
| Regex.SkipInsideGroup | extensions/iconhedra/iconhedra.py:50 | positions inside a matched group contribute nothing beyond what follows the group |
| Regex.FindGroupsCons | extensions/iconhedra/iconhedra.py:50 | a group at the front is the first token |
| Regex.FindGroupsSkip | extensions/iconhedra/iconhedra.py:50 | a leading character other than `[` contributes no token |
| Regex.FindWords | extensions/iconhedra/iconhedra.py:63 | every token `re.findall(r'[\w]+')` returns is non-empty and made of word characters |
| Regex.FindWordsAreMaximalRuns | extensions/iconhedra/iconhedra.py:63 | the tokens are the maximal runs of word characters, in order |
| Regex.SkipInsideRun | extensions/iconhedra/iconhedra.py:63 | positions inside a run contribute nothing beyond what follows the run |
| Regex.WordCharsOfRun | extensions/iconhedra/iconhedra.py:63 | the word characters of a text that starts with a run are that run followed by the word characters of the rest |
| Regex.FindWordsKeepsWordChars | extensions/iconhedra/iconhedra.py:63 | the tokens together hold every word character of the text, in order, and nothing else |
| Regex.FindWordsCons | extensions/iconhedra/iconhedra.py:63 | a maximal run at the front is the first token |
| Regex.FindWordsSkip | extensions/iconhedra/iconhedra.py:63 | a leading non-word character contributes no token |
| Color.Slice | extensions/iconhedra/iconhedra.py:95 | Python's clamped `s[i:j]`: the characters from position `i` up to `j` or the end of `s`, whichever comes first; empty once `i` is past the end |
| Color.Digits | extensions/iconhedra/iconhedra.py:94 | `lstrip('#')` removes the leading `#`s and nothing else |
| Color.Component | extensions/iconhedra/iconhedra.py:95 | component `k` parses exactly when its slice is non-empty; it is then a byte, and otherwise the error names `k` |
| Color.HexToRgb | extensions/iconhedra/iconhedra.py:92-95 | on hexadecimal digits after the `#`s, the result is a colour exactly when at least five digits remain; all three components are bytes; the error names the first empty component |
| Color.HexToRgbOfSixDigits | extensions/iconhedra/iconhedra.py:95 | on `#` and six digits, component `k` is 16·digit(2k) + digit(2k+1) |
| Color.HexToRgbIgnoresHashes | extensions/iconhedra/iconhedra.py:94 | every leading `#` is removed, not just one |
| Color.HexToRgbIgnoresTail | extensions/iconhedra/iconhedra.py:95 | digits after the sixth do not change the colour |
| Color.ComponentOfPrefix | extensions/iconhedra/iconhedra.py:95 | a component whose slice lies inside a prefix ignores what follows |
| Color.HexToRgbOfFiveDigits | extensions/iconhedra/iconhedra.py:95 | with exactly five digits the colour parses and blue is the single fifth digit |
| Color.ComponentIgnoresCase | extensions/iconhedra/iconhedra.py:95 | lower-casing the digits does not change a component |
| Color.HexToRgbIgnoresCase | extensions/iconhedra/iconhedra.py:95 | upper- and lower-case digits give the same colour |
| Color.HexByte | extensions/iconhedra/iconhedra.py:95 | two hexadecimal digits for a byte |
| Color.RgbToHex | extensions/iconhedra/iconhedra.py:272 | the `#rrggbb` form of the default colour: seven characters starting with `#` |
| Color.HexToRgbOfRgbToHex | extensions/iconhedra/iconhedra.py:92-95 | a colour formatted as `#rrggbb` parses back to itself |
| Color.DefaultColor | extensions/iconhedra/iconhedra.py:272 | the default `#3498db` is (52, 152, 219) |
| Faces.SelectSource | extensions/iconhedra/iconhedra.py:39-44 | a non-empty file wins, else a non-empty name, else `ValueError`; it succeeds exactly when one of them is given |
| Faces.TryAll | extensions/iconhedra/iconhedra.py:52 | a list comprehension that succeeds has one result per element |
| Faces.TryAllOk | extensions/iconhedra/iconhedra.py:52 | a comprehension succeeds exactly when no element raises |
| Faces.TryAllValues | extensions/iconhedra/iconhedra.py:52 | each result of a comprehension that succeeds is its own element's result, in order |
| Faces.TryAllFails | extensions/iconhedra/iconhedra.py:52 | one element that raises makes the whole comprehension raise |
| Faces.TryAllSucceeds | extensions/iconhedra/iconhedra.py:52 | elements none of which raises give a result |
| Faces.TryAllError | extensions/iconhedra/iconhedra.py:52 | the error a comprehension raises is the error of the first element that raises: every element before it gives a result |
| Faces.PolyhedronFaces | extensions/iconhedra/iconhedra.py:39-52 | with no name and no file the result is `ValueError`; otherwise it is the faces of OpenSCAD's output |
| Faces.ParseInt | extensions/iconhedra/iconhedra.py:52 | `int(f)` accepts only a piece of digits and whitespace that holds a digit; a rejected piece is named in the error |
| Faces.ParseAll | extensions/iconhedra/iconhedra.py:52 | `[int(f) for f in …]` gives one index per piece exactly when every piece is an integer; otherwise the error is a non-integer piece |
| Faces.DecodeFace | extensions/iconhedra/iconhedra.py:52 | a decoded face has one index per comma of the stripped token, plus one; the only error is a non-integer piece |
| Faces.DecodeFaces | extensions/iconhedra/iconhedra.py:52 | one face per token exactly when every token decodes; otherwise the error is a non-integer piece |
| Faces.FacesOfOutput | extensions/iconhedra/iconhedra.py:48-52 | the block is reported missing exactly when the search finds no `<FACES>` block; the only other error is a non-integer piece |
| Faces.StripGroup | extensions/iconhedra/iconhedra.py:52 | `strip('[]')` on a group removes exactly its two brackets |
| Faces.DecodeFaceLength | extensions/iconhedra/iconhedra.py:52 | a decoded face has one index per comma of its token, plus one |
| Faces.ParseIntBlank | extensions/iconhedra/iconhedra.py:52 | `int` of a piece that is empty or holds only what `\s` matches raises |
| Faces.DecodeGroup | extensions/iconhedra/iconhedra.py:52 | decoding a group is splitting what lies between its brackets |
| Faces.DecodeFaceEmptyPiece | extensions/iconhedra/iconhedra.py:52 | a group with an empty or blank piece does not decode |
| Faces.DecodeEmptyFace | extensions/iconhedra/iconhedra.py:52 | `[]` does not decode |
| Faces.DecodeDoubledComma | extensions/iconhedra/iconhedra.py:52 | a doubled comma anywhere in a group makes it fail to decode |
| Faces.DecodeTrailingComma | extensions/iconhedra/iconhedra.py:52 | a trailing comma makes a group fail to decode, whatever comes before it |
| Faces.ParseIntOfDecimal | extensions/iconhedra/iconhedra.py:52 | a numeral with whitespace before and after it reads back as its number |
| Faces.TryAllOf | extensions/iconhedra/iconhedra.py:52 | elements that each give the matching result give the whole list: pieces that read as indices read as the face, tokens that decode to faces decode to the face list |
| Faces.ParseSpacedNumerals | extensions/iconhedra/iconhedra.py:52 | the pieces of a printed face, spaces included, read back as the face |
| Faces.DecodeEchoFace | extensions/iconhedra/iconhedra.py:50-52 | a printed non-empty face is a group and decodes to itself |
| Faces.FindGroupsOfJoin | extensions/iconhedra/iconhedra.py:50 | groups joined by `, ` and closed by `]` are found one by one, in order |
| Faces.FindGroupsOfEchoList | extensions/iconhedra/iconhedra.py:50 | in a printed list of groups the outer brackets never form a token: the tokens are the groups, in order |
| Faces.EchoFacesGroups | extensions/iconhedra/iconhedra.py:50-52 | every printed face is a group that decodes to that face |
| Faces.DecodeEchoFaces | extensions/iconhedra/iconhedra.py:50-52 | a printed non-empty list of non-empty faces decodes to itself |
| Faces.EchoFacesInBlock | extensions/iconhedra/iconhedra.py:48 | a printed face list fits the block pattern's class and holds no `<` |
| Faces.FacesOfEchoedOutput | extensions/iconhedra/iconhedra.py:48-52 | output printing faces between two `<FACES>` markers, after text with no marker, decodes to exactly those faces, in order |
| Faces.FacesBlockFound | extensions/iconhedra/iconhedra.py:48-50 | a `<FACES>` block anywhere in the output means the block is never reported missing |
| Faces.FindGroupsOfPair | extensions/iconhedra/iconhedra.py:50 | two groups separated by a comma inside outer brackets are the two tokens, in order |
| Names.PolyhedronList | extensions/iconhedra/iconhedra.py:62-63 | every name returned is non-empty and made of word characters |
| Names.NamesAreMaximalRuns | extensions/iconhedra/iconhedra.py:62-63 | the names are the maximal runs of word characters of the block, in order, and together hold all its word characters |
| Names.NamesHoldNoPunctuation | extensions/iconhedra/iconhedra.py:63 | no name holds a quote, comma, bracket or whitespace |
| Names.ListBlockFound | extensions/iconhedra/iconhedra.py:62 | a `<LIST>` block anywhere in the output means the list is returned |
| Names.FindWordsOfQuote | extensions/iconhedra/iconhedra.py:63 | a quoted name is one token, without its quotes |
| Names.FindWordsOfJoin | extensions/iconhedra/iconhedra.py:63 | quoted names joined by `, ` and closed by `]` come back as the names, in order |
| Names.QuotedInBlock | extensions/iconhedra/iconhedra.py:62 | a printed list of names fits the block pattern's class |
| Names.ListOfEchoedOutput | extensions/iconhedra/iconhedra.py:62-63 | output printing names between two `<LIST>` markers, after text with no marker, gives back exactly those names in order, underscores included |
| OutputName.LastIndex | extensions/iconhedra/iconhedra.py:312 | `rfind`: the reported index holds the character and none follows it; with no index, the text lacks the character |
| OutputName.Basename | extensions/iconhedra/iconhedra.py:312 | `os.path.basename`: a suffix of the path with no `/`, preceded by `/` whenever it is not the whole path |
| OutputName.BasenameOfPath | extensions/iconhedra/iconhedra.py:312 | the base name of `dir/name` is `name` when `name` has no `/` |
| OutputName.BasenameOfName | extensions/iconhedra/iconhedra.py:312 | a name with no `/` is its own base name |
| OutputName.BasenameIdempotent | extensions/iconhedra/iconhedra.py:312 | taking the base name twice changes nothing |
| OutputName.SplitExt | extensions/iconhedra/iconhedra.py:312 | `os.path.splitext`: root and extension concatenate to the name; the extension is empty or one `.` then no other `.`; a non-empty extension follows a root that is not only dots |
| OutputName.SplitExtOf | extensions/iconhedra/iconhedra.py:312 | a root that is not only dots, then a `.`-extension, splits back into that root and extension |
| OutputName.SplitExtLeadingDots | extensions/iconhedra/iconhedra.py:312 | a name that is only dots before its last `.` has no extension |
| OutputName.SplitExtNoDot | extensions/iconhedra/iconhedra.py:312 | a name without `.` has no extension |
| OutputName.Stem | extensions/iconhedra/iconhedra.py:312 | the name taken from a file has no `/`, is a prefix of the base name, and what it leaves off is empty or one `.`-extension |
| OutputName.StemOfDottedName | extensions/iconhedra/iconhedra.py:312-313 | `shapes/my.cube.scad` gives `my.cube`: only the last extension is dropped |
| OutputName.StemOfDotted | extensions/iconhedra/iconhedra.py:312-313 | a name of leading dots, a `.`, and a rest with no `.` is kept whole (`.hidden`, `..scad`) |
| OutputName.StemOfDirectory | extensions/iconhedra/iconhedra.py:312-313 | a path ending in `/` gives an empty name |
| OutputName.IsAnimated | extensions/iconhedra/iconhedra.py:317 | only an absent or a zero duration counts as false |
| OutputName.NamePart | extensions/iconhedra/iconhedra.py:310-315 | with a file the name is the file's stem, which has no `/`; otherwise it is the non-empty polyhedron name |
| OutputName.OutputFileName | extensions/iconhedra/iconhedra.py:317-320 | the file name is `anim_` or `icon_` by animation, then the name, then `.svg` |
| OutputName.ParseOutputFileNameOf | extensions/iconhedra/iconhedra.py:317-320 | an output file name reads back as its kind and its name |
| OutputName.OutputFileNameOfParse | extensions/iconhedra/iconhedra.py:317-320 | every file name that reads back is the output file name of what it reads back to |
| OutputName.OutputFileNameInjective | extensions/iconhedra/iconhedra.py:317-320 | different kinds or names never give the same file name |
| OutputName.Dispatch | extensions/iconhedra/iconhedra.py:279-324 | a conflict exactly when both a file and a name are given; otherwise the list when asked for it; help exactly when nothing is asked; any icon is generated under the output file name for the name part, with the arguments passed through |
| OutputName.DispatchFile | extensions/iconhedra/iconhedra.py:310-321 | with `--file dir/root.ext` the icon is named after `root` |
| OutputName.DispatchNamed | extensions/iconhedra/iconhedra.py:314-321 | with a name and no file the icon is named after the polyhedron |
| OutputName.ZeroDurationIsStatic | extensions/iconhedra/iconhedra.py:317-320 | a duration of 0 gives an `icon_` file, not an `anim_` one |
| OutputName.DispatchEmptyName | extensions/iconhedra/iconhedra.py:289-324 | an empty name counts as no name: help is shown |

## Left out

- Running `openscad` and capturing its output (lines 40-42, 45 and 60-61). That is external-process I/O. The captured text is a parameter of `Faces.FacesOfOutput` and `Names.PolyhedronList`, and the UTF-8 decoding of it is not modelled.
- Vertex parsing (lines 47, 49, 51): `float` parsing is left out. So is the order of evaluation. In the source, a missing `<VERTICES>` block raises on line 49 before the faces are read. `Faces.FacesOfOutput` models only the faces.
- The faces come back as numpy arrays (line 52). The model keeps them as sequences of naturals.
- Rotation matrices, shading, projection, depth sorting, random orientation and SVG drawing (lines 66-89, 98-262). These are floating-point numerics, randomness and a foreign library. `generate_icon`'s per-frame loop is part of this.
- argparse itself, and the float parsing of `--orientation` and `--rotation-axis` with its error exits (lines 266-308). `OutputName.Args` holds the already-parsed values, and `Dispatch` does not model those two exits.
- Printing the sorted list of names (lines 284-288). `Dispatch` returns `ListPolyhedra`.
- `\d`, `\s` and `\w` are modelled over ASCII. Python's `re` on `str` also accepts non-ASCII digits, spaces and letters, and `int` accepts non-ASCII digits and spaces too. Within ASCII, `\s` also matches the separators `\x1c`-`\x1f`, which `int` rejects; the model keeps that difference.
- `int` accepts a sign and underscores between digits. Neither can reach it here, because the face pattern admits only digits, whitespace and commas.
- Color.HexToRgb: requires the characters after the leading `#`s to be hexadecimal digits. `int(s, 16)` on other two-character slices follows Python quirks (`-f`, ` f`, `0x`) that are not modelled.
- OutputName.IsAnimated: the duration is a `real`, so NaN and infinities, which are truthy floats, are not modelled.
- OutputName.Basename: POSIX paths only. A Windows `\` separator is not modelled.
- The text of error messages and the exit statuses are not modelled; errors are datatype values.
