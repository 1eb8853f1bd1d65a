# ICD-11 MMS tab parser, modelled in Dafny

`parse_icd11mms_tab.py` turns the tab-separated export of the ICD-11 MMS
linearization into a list of `is_a` edges. Its core has two stages:

- **`parse`** skips the header line. It splits every remaining line on tabs
  and reads the code (field 2) and the title (field 4). It decodes the
  depth of the row from the dashes in front of the title, and strips that
  marker from the title. A table from depth to the id of the most recent
  node at that depth then links each row of depth L > 0 to the latest
  earlier row of depth L - 1. Node ids are 0, 1, 2, ... in row order.
- **`write_out`** walks the nodes in id order and skips the roots. For every
  other node it writes one line: child code, child title, `is_a`, parent
  code, parent title. An empty code is written as `NA`.

The model follows that structure:

- `Text`: Python 3's whitespace table, `str.lstrip()`, and
  `str.split` / `str.join` on one character.
- `TitleDepth`: depth decoding. It has a declarative reading (`Decode`)
  and the character loop of the source (`ScanTitle`), which is proved to
  compute it.
- `Hierarchy`: the parser. It is a method with the source's cursor map,
  proved equal to a declarative reading in which the parent of a row is
  the latest earlier row one level up.
- `Edges`: the records and lines `write_out` produces.
- `Conversion`: what the written lines say about the rows that were read.
- `Scenarios`: small concrete inputs, and the nodes and lines they give.

The input file is modelled as the sequence of its lines. Each line still
carries its newline, as Python's line iteration yields it. The output file
is modelled as the sequence of lines `write_out` writes. The two error
exits of `parse` are modelled as values of `ParseError`:

- `MissingField` is the `IndexError` of a row with fewer than five fields.
- `MissingLevel` is the `KeyError` of a parent lookup that finds no entry.

The parser reports the first row that fails.

The cursor table is never pruned. When a row of depth L follows a shallower
row, its lookup can still find an entry for depth L - 1 left over from an
earlier branch. The row is then linked into that earlier branch instead of
failing. The model keeps this behaviour, and `Scenarios.StaleCursorParsed`
shows it on the depths 0, 1, 2, 0, 2.

Decoding a cleaned title again need not give depth 0. The dash counter
stops at the first character other than a dash or a space, and `lstrip()`
afterwards removes every other whitespace character too, such as the
no-break space U+00A0. So a field `"\u00A0-x"` has depth 0 and the cleaned
title `"-x"`, and that title decodes to depth 1. The exact condition is
`TitleDepth.RedecodeLevel`. Decoding again does give depth 0 when the space
is the only whitespace character in the field
(`TitleDepth.RedecodeSpaceOnly`).

## Model

| member | source | states |
|---|---|---|
| Text.LStrip | parse_icd11mms_tab.py:64 | `lstrip()` never lengthens a string; its result is empty or starts with a character that Python 3 does not count as whitespace |
| Text.LStripRemovesWhitespace | parse_icd11mms_tab.py:64 | the string is a prefix made only of whitespace followed by the `lstrip()` result |
| Text.Split | parse_icd11mms_tab.py:48 | splitting on a tab yields at least one field, and no field contains a tab |
| Text.JoinSplit | parse_icd11mms_tab.py:48 | the fields of a line joined back with tabs give the line again |
| Text.SplitJoin | parse_icd11mms_tab.py:102 | tab-free fields joined with tabs split back into exactly those fields |
| TitleDepth.MarkerRun | parse_icd11mms_tab.py:56-60 | the counter stops at the first character other than a dash or a space: every character before it is a dash or a space |
| TitleDepth.Decode | parse_icd11mms_tab.py:52-64 | the cleaned title is empty or starts with a non-whitespace character; depth plus title length never exceed the field length |
| TitleDepth.DecodeSuffix | parse_icd11mms_tab.py:56-64 | the cleaned title is the tail of the raw title field |
| TitleDepth.ScanTitle | parse_icd11mms_tab.py:52-64 | the character loop with the `counting` flag and the buffer, followed by `lstrip()`, gives exactly the depth and title of the declarative decoding |
| TitleDepth.DecodeIndent | parse_icd11mms_tab.py:56-64 | round trip: n dashes in front of a clean title decode to depth n and that title |
| TitleDepth.DecodeUnmarked | parse_icd11mms_tab.py:56-64 | a title that does not start with a dash or a space has depth 0 and loses only its leading whitespace |
| TitleDepth.DecodeAllMarkers | parse_icd11mms_tab.py:56-64 | a title made only of dashes and spaces has an empty cleaned title, and its depth is its number of dashes |
| TitleDepth.RedecodeLevel | parse_icd11mms_tab.py:56-64 | decoding a cleaned title again gives depth 0 if and only if that title is empty or does not start with a dash |
| TitleDepth.RedecodeSpaceOnly | parse_icd11mms_tab.py:56-64 | when the space is the only whitespace character in the field, the cleaned title decodes to itself at depth 0 |
| TitleDepth.NoBreakSpaceBeforeDash | parse_icd11mms_tab.py:56-64 | the field `"\u00A0-x"` (a no-break space, then a dash) decodes to depth 0 and the title `"-x"` |
| TitleDepth.CleanedTitleWithDash | parse_icd11mms_tab.py:56-62 | the cleaned title `"-x"` decodes again to depth 1 |
| Hierarchy.DataRows | parse_icd11mms_tab.py:37 | the header line followed by the data rows is the whole file; a file without even a header has no data rows |
| Hierarchy.LatestAt | parse_icd11mms_tab.py:78 | the cursor entry for a depth is the last position with that depth; there is no entry if and only if no earlier row has that depth |
| Hierarchy.ParentOf | parse_icd11mms_tab.py:69-72 | a row has no parent if and only if its depth is 0; the lookup fails if and only if no earlier row is one level up; otherwise the parent is the latest earlier row one level up |
| Hierarchy.LatestAtSnoc | parse_icd11mms_tab.py:78 | after a row, its position is the latest at its depth, and every other depth keeps its latest position |
| Hierarchy.CursorStep | parse_icd11mms_tab.py:78 | overwriting the entry for the row's depth keeps the cursor table equal to the latest position at every depth |
| Hierarchy.Parse | parse_icd11mms_tab.py:34-80 | parsing succeeds if and only if every data row has its fields and finds its parent; on success node i is built from data row i with the latest-one-level-up parent; on failure the reported row is the first that fails, with the field count or the missing key |
| Hierarchy.FaithfulUnique | parse_icd11mms_tab.py:45-78 | the rows decide the nodes: two node sequences built from the same rows are equal |
| Hierarchy.FirstFailureUnique | parse_icd11mms_tab.py:45-72 | only one row can be the first that fails to parse |
| Edges.ShownCode | parse_icd11mms_tab.py:97-100 | no written code is empty: an empty code is written as `NA`, any other code unchanged |
| Edges.RelationOf | parse_icd11mms_tab.py:87-100 | the record of a node with a parent holds the node's title, the title of the node its link names, and their codes as written, neither empty |
| Edges.FormatLine | parse_icd11mms_tab.py:102 | the output line is the five columns child code, child title, `is_a`, parent code, parent title joined with tabs, followed by a newline |
| Edges.LinkedIds | parse_icd11mms_tab.py:86-93 | the nodes that get a line are exactly those with a parent, in ascending id order |
| Edges.LinkedIdsCount | parse_icd11mms_tab.py:86-92 | the number of nodes with a parent is the number of nodes minus the number of roots |
| Edges.Emit | parse_icd11mms_tab.py:86-100 | the m-th record is built from the m-th node with a parent and from the node its link names |
| Edges.WriteOut | parse_icd11mms_tab.py:82-103 | one line per node that is not a root, each ending with a newline |
| Edges.RecordFields | parse_icd11mms_tab.py:87-100 | both titles pass through; a written code is `NA` if and only if the node's code is empty or already `NA`, and a non-empty code is written unchanged |
| Edges.FormatRoundTrip | parse_icd11mms_tab.py:102 | an output line without its newline splits on tabs into the five columns, when no column holds a tab |
| Conversion.RootIffTop | parse_icd11mms_tab.py:69-70 | a parsed node has no parent if and only if its row has depth 0 |
| Conversion.ParentIsLatest | parse_icd11mms_tab.py:69-78 | a parsed node's parent is an earlier row one level up, and no row between the two is one level up |
| Conversion.ParsedLinksPointBack | parse_icd11mms_tab.py:72-78 | every parent link of a parsed node names an earlier node, so every lookup of lines 94-95 succeeds |
| Conversion.EdgeCount | parse_icd11mms_tab.py:34-103 | the number of lines written is the number of data rows minus the number of depth-0 rows |
| Conversion.TabFreeColumns | parse_icd11mms_tab.py:48-64 | a row's code and cleaned title hold no tab |
| Conversion.OutputColumns | parse_icd11mms_tab.py:82-102 | each written line splits back into the child's code and cleaned title, `is_a`, and the parent's code and cleaned title, as read from their rows, with an empty code shown as `NA` |
| Scenarios.SingleEdgeParsed | parse_icd11mms_tab.py:45-78 | a root "Foo" with code R and a row "-Bar" with code X1 parse into a root and a child of node 0 |
| Scenarios.SingleEdgeOutput | parse_icd11mms_tab.py:86-103 | those nodes give the one line `X1\tBar\tis_a\tR\tFoo` |
| Scenarios.EmptyRootCodeParsed | parse_icd11mms_tab.py:45-78 | a root "Foo" with an empty code and a row "-Bar" with code X1 parse into a root and a child of node 0 |
| Scenarios.EmptyRootCodeOutput | parse_icd11mms_tab.py:97-102 | with an empty root code the line reads `X1\tBar\tis_a\tNA\tFoo` |
| Scenarios.ChainParsed | parse_icd11mms_tab.py:69-78 | depths 0, 1, 2 give a chain: the depth-2 row hangs under the depth-1 row |
| Scenarios.ChainOutput | parse_icd11mms_tab.py:86-103 | the chain gives two lines, B under A and C under B |
| Scenarios.SiblingsParsed | parse_icd11mms_tab.py:69-78 | depths 0, 1, 1 give two children of the root |
| Scenarios.SiblingsOutput | parse_icd11mms_tab.py:86-103 | the siblings give two lines, both naming A as the parent |
| Scenarios.StaleCursorParsed | parse_icd11mms_tab.py:69-78 | depths 0, 1, 2, 0, 2: the last row attaches to node 1 of the earlier branch instead of failing |
| Scenarios.SkippedDepth | parse_icd11mms_tab.py:69-72 | a depth-2 row right after a root is the first row that fails to parse |
| Scenarios.ParseStaleCursor | parse_icd11mms_tab.py:34-80 | the parser, given a header and rows of depths 0, 1, 2, 0, 2, returns exactly those five nodes, the last one a child of node 1 |
| Scenarios.ParseSkippedDepth | parse_icd11mms_tab.py:69-72 | the parser, given a header, a root and a depth-2 row, fails at data row 1 with the missing key 1 |

## Left out

- Reading the command line, opening the input file and writing `outfile.tsv`, and the progress `print` of `main`. The file contents are the parameter and the result of the model.
- A variant of the converter with URI and chapter columns, which tells apart "other" and "unspecified" entries. Its code is not part of this model.
- The variable `previous_level` (line 76). It is assigned and never read, so it has no effect.
- Python 2. The model uses Python 3's `str.isspace()` table for `lstrip()`, and Python 3's insertion-ordered dictionaries, so the node dictionary is a sequence indexed by node id.
- Output after a parse error. A run that stops with an exception ends without writing any line, so the model returns only the error.
- Edges.WriteOut: it requires every parent link to name a node (`Closed`). The `KeyError` the script would raise otherwise is not modelled. Parsed nodes always meet this (`Conversion.ParsedLinksPointBack`).
- Newline translation. Python 3 opens the input file with universal newlines, so every `"\r\n"` or lone `"\r"` in the file ends a line, and no line the parser sees holds a carriage return. The model takes the lines after that translation as its input and does not model the translation itself.
- Splitting the output file into lines. A row with exactly five fields leaves its newline at the end of the title, and the line written for it then holds a second newline. The model keeps each written line as one string, so that title stays as it is.
