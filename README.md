# mapviewload, coordinate pass

This project models the coordinate pass of `bin/mapviewload.py`. The script reads
an NCBI mapview file, one tab-delimited line per feature. It checks each gene
record against the MGI human markers, which form a lookup from EntrezGene id to
(accID, symbol, chromosome). It then writes three files:

- the human coordinate file, with rows `(id, chromosome, start, stop, strand)`;
- the chromosome mismatch report, with rows `(id, chromosome, MGI chromosome)`;
- the nomenclature mismatch report, with rows `(id, feature_name, MGI symbol)`.

For each line, the script does these steps in order:

1. It drops the line's last character and splits the rest on tabs.
2. It skips the record unless `feature_type` contains `GENE`.
3. It skips the record unless `group_label` contains `GRCh37.p2-Primary Assembly`.
4. It removes `GeneID:` from `feature_id`.
5. It skips the record if the resulting id is not in the lookup.
6. If the chromosome disagrees with MGI's, it reports the record and skips it.
7. If the symbol disagrees with MGI's, it reports the record but still keeps it.
8. It writes the coordinate row.

Modules, one per concern:

- `Strings` (strings.dfy): the Python string operations the pass uses. These are
  `string.find`, `string.replace`, `string.split` on one character, the slice
  `line[:-1]`, and tab-joining.
- `Records` (records.dfy): the input feature, the reference row and the three
  output rows. It also reads one line into a feature and gives the text each
  output row has on disk.
- `Routing` (routing.dfy): `Contribution`, the pure per-record decision. `Run`
  folds it over the lines. The lemmas state what a whole run writes.
- `MapviewLoad` (mapviewload.dfy): the script's module globals, as the class
  `Loader`. Its fields are `mgiLookup` and the three output files, each a
  sequence that is only appended to. `StoreResults` is the loop that fills
  `mgiLookup`. `GetCoordinates` is the loop of the coordinate pass. Its body is
  `LoadLine`, with the same chain of tests and writes as the script, where
  each `continue` becomes a return. `StoreResults` is proved against
  `Store`, `LoadLine` against `Contribution` and `GetCoordinates` against `Run`.

The script's header comment (bin/mapviewload.py:36-37) describes the input
as `feature_type = "GENE"` and `group_label = "GRChxxxx-Primary Assembly"`. The
code is narrower or wider than that in two places, and the model follows the code:

- The tests at lines 273 and 277 are substring tests, for `GENE` and for the
  single literal `GRCh37.p2-Primary Assembly`. So a `GRCh38.p1-Primary Assembly`
  record is dropped (`OtherBuildExample`).
- `GeneID:` is removed wherever it occurs in `feature_id`, in one left-to-right
  pass, not only in front (`NormaliseInnerTag`, `Strings.ReplaceAtFirst`).

A line with fewer than 13 tokens makes the script raise an `IndexError` before
anything is written for that line. No later line is read. The model returns
`MalformedLine(i)` and keeps the rows written before line `i`.

## Model

| member | source | states |
|---|---|---|
| `Strings.Find` | bin/mapviewload.py:273 | the result is the lowest index at which the pattern occurs, or -1 when it occurs nowhere |
| `Strings.FindNegativeIff` | bin/mapviewload.py:273-278 | the script's test `find(...) < 0` holds exactly when the pattern occurs nowhere in the token |
| `Strings.Replace` | bin/mapviewload.py:281 | a string in which the pattern does not occur is returned unchanged |
| `Strings.ReplaceAtFirst` | bin/mapviewload.py:281 | when the pattern occurs, the result is the text before its first occurrence (`Find`), then the replacement, then the replacement of the rest after that occurrence |
| `Strings.ReplaceFront` | bin/mapviewload.py:281 | a pattern at the front is replaced, and the scan goes on right after it |
| `Strings.ReplaceSkip` | bin/mapviewload.py:281 | a character that cannot start the pattern is copied, and the scan goes on at the next character |
| `Strings.ReplaceKeepsPrefix` | bin/mapviewload.py:281 | a prefix free of the pattern's first character is copied unchanged in front of the rest's replacement |
| `Strings.ReplaceEmptyShrinks` | bin/mapviewload.py:281 | removing the pattern never makes the id longer |
| `Strings.DropLast` | bin/mapviewload.py:260 | `line[:-1]` is the line without its last character; the empty line stays empty |
| `Strings.Split` | bin/mapviewload.py:260 | the split gives at least one piece, and no piece contains the separator |
| `Strings.JoinSplit` | bin/mapviewload.py:260 | joining the pieces with the separator gives back the split text |
| `Strings.SplitJoin` | bin/mapviewload.py:260 | separator-free fields joined with the separator split back into the same fields |
| `Strings.JoinDropLast` | bin/mapviewload.py:260 | dropping the last character of joined fields drops it from the last field |
| `Records.Tokens` | bin/mapviewload.py:260 | a line has at least one token, no token holds a tab, and the tokens joined with tabs give back the line without its last character |
| `Records.Parse` | bin/mapviewload.py:260-270 | a line can be read exactly when it has at least 13 tokens, and every token read is tab-free |
| `Records.ParseInputLine` | bin/mapviewload.py:260-270 | a newline-terminated line built from a feature (tokens 5-8 and any trailing tokens are ignored) reads back as that feature |
| `Records.ParsedLineIsInputLine` | bin/mapviewload.py:260-270 | conversely, every newline-terminated line that can be read is the line built from the feature read, the four skipped tokens and the trailing tokens |
| `Records.ParseUnterminatedLine` | bin/mapviewload.py:260 | a last line without its newline is read with the last character of `group_label` cut off |
| `Records.ChrMismatchLine` | bin/mapviewload.py:288 | the chromosome mismatch line written for a row ends in a newline and, when the fields hold no tab, splits back into its three fields |
| `Records.NomenMismatchLine` | bin/mapviewload.py:295 | the nomenclature mismatch line written for a row ends in a newline and, when the fields hold no tab, splits back into its three fields |
| `Records.CoordLine` | bin/mapviewload.py:297-301 | the coordinate line, written in five pieces, ends in a newline and, when the fields hold no tab, splits back into id, chromosome, start, stop and strand |
| `Routing.NormaliseId` | bin/mapviewload.py:281 | the lookup id is never longer than `feature_id`, and a `feature_id` without `GeneID:` is looked up as it is |
| `Routing.NormaliseTaggedDigits` | bin/mapviewload.py:281 | `GeneID:` followed by digits gives the digits as the lookup id |
| `Routing.NormaliseExample` | bin/mapviewload.py:281 | `GeneID:1017` is looked up as `1017` |
| `Routing.NormaliseInnerTag` | bin/mapviewload.py:281 | the tag is removed inside the id too: digits, `GeneID:`, digits give the two digit strings joined, so `12GeneID:34` gives `1234` |
| `Routing.Contribution` | bin/mapviewload.py:272-301 | a non-gene record, a record off the primary assembly and a record with an unknown id add no row. A chromosome mismatch adds exactly one mismatch row `(id, chromosome, MGI chromosome)` and nothing else. An accepted record adds exactly its coordinate row, built from tokens 1-4 verbatim. It also adds a nomenclature row `(id, feature_name, MGI symbol)` exactly when the symbol differs |
| `Routing.ContributionJustified` | bin/mapviewload.py:272-301 | every row a record adds passes that file's tests and is the row built from the record: a coordinate row needs an accepted record, a chromosome row a chromosome mismatch, a nomenclature row a symbol mismatch |
| `Routing.Run` | bin/mapviewload.py:255-303 | in total a run writes no more chromosome mismatch and coordinate rows together than it has lines (`Contribution` gives the per-line bound). It writes no more nomenclature rows than coordinate rows. When it stops, it stops at an unreadable line |
| `Routing.RunSnoc` | bin/mapviewload.py:255-301 | one more line adds exactly that line's contribution, or stops the pass if the line is unreadable |
| `Routing.RunStaysFailed` | bin/mapviewload.py:262-270 | after an unreadable line, no later line changes any file |
| `Routing.RunStep` | bin/mapviewload.py:255-301 | a readable line after a pass that has not stopped appends its record's rows to the rows of the earlier lines |
| `Routing.UnreadableLineStops` | bin/mapviewload.py:260-270 | a line with too few tokens stops the pass there or at an earlier line |
| `Routing.RunCompletesIffReadable` | bin/mapviewload.py:255-270 | the pass completes exactly when every line has at least 13 tokens |
| `Routing.RunStopsAtFirstMalformed` | bin/mapviewload.py:255-270 | when the pass stops, every earlier line was readable, so it stops at the first unreadable line |
| `Routing.ReadablePrefixCompletes` | bin/mapviewload.py:255-270 | a pass over lines that can all be read does not stop |
| `Routing.RunPrefix` | bin/mapviewload.py:288-301 | the rows written for the first k lines remain the first rows of every file: files are only appended to |
| `Routing.CoordRowsFromLines` | bin/mapviewload.py:272-301 | every coordinate row comes from an input line whose record is accepted: a gene on the primary assembly, known to MGI, on MGI's chromosome. Filtered, unknown and chromosome-mismatched records never reach the coordinate file |
| `Routing.ChrRowsFromLines` | bin/mapviewload.py:272-289 | every chromosome mismatch row comes from an input line whose known record disagrees with MGI's chromosome |
| `Routing.NomenRowsFromLines` | bin/mapviewload.py:272-295 | every nomenclature row comes from an input line whose accepted record disagrees with MGI's symbol |
| `Routing.CoordRowWritten` | bin/mapviewload.py:297-301 | an accepted line, with every line up to it readable, has its coordinate row in the file directly after the rows of the earlier lines |
| `Routing.ChrRowWritten` | bin/mapviewload.py:287-289 | a chromosome mismatch, with every line up to it readable, has its row in the report directly after the rows of the earlier lines |
| `Routing.NomenRowWritten` | bin/mapviewload.py:293-295 | a symbol mismatch is an accepted record, and has its row in the report directly after the rows of the earlier lines; being accepted, it has its coordinate row too (`CoordRowWritten`) |
| `Routing.CoordRowsInInputOrder` | bin/mapviewload.py:255-301 | the coordinate rows of two accepted lines appear in the order of the lines |
| `Routing.ChromosomeMismatchExample` | bin/mapviewload.py:286-289 | for id 1017 on chromosome 11 against MGI's 12, the only row written is `(1017, 11, 12)` in the chromosome report |
| `Routing.SymbolMismatchExample` | bin/mapviewload.py:293-301 | for CDK2X against MGI's CDK2, the record writes the row `(1017, CDK2X, CDK2)` and still its coordinate row |
| `Routing.OtherBuildExample` | bin/mapviewload.py:276-278 | a `GRCh38.p1-Primary Assembly` record adds no row |
| `Routing.UnterminatedLastLine` | bin/mapviewload.py:260-278 | a last line without its newline, labelled exactly `GRCh37.p2-Primary Assembly`, adds no row |
| `MapviewLoad.Store` | bin/mapviewload.py:212-214 | the keys after storing are the old keys plus every accID of the results |
| `MapviewLoad.StoreLastWriteWins` | bin/mapviewload.py:212-214 | the lookup keeps, for an accID, the last result row carrying it |
| `MapviewLoad.StoreKeepsOthers` | bin/mapviewload.py:212-214 | an id that no result row carries keeps its earlier entry, or stays absent |
| `MapviewLoad.StoreKeyedByAccId` | bin/mapviewload.py:212-214 | every entry stays stored under its own accID |
| `MapviewLoad.Loader.constructor` | bin/mapviewload.py:93-100 | the lookup starts empty and the three output files start empty |
| `MapviewLoad.Loader.StoreResults` | bin/mapviewload.py:211-214 | the loop leaves `mgiLookup` equal to `Store` of the old lookup and the results, and writes no output row |
| `MapviewLoad.Loader.LoadLine` | bin/mapviewload.py:260-301 | one turn of the loop keeps the lookup. It reports whether the line has 13 tokens; an unreadable line writes nothing, a readable one appends exactly its record's `Contribution` |
| `MapviewLoad.Loader.GetCoordinates` | bin/mapviewload.py:250-303 | the loop does not change `mgiLookup`. It appends to each file exactly the rows `Run` gives, and it reports a stop at the line where `Run` stops |
| `MapviewLoad.Load` | bin/mapviewload.py:313-316 | storing the reference rows and then running the pass writes exactly `Run` over `Store` of the results |

## Left out

- The reference query `db.sql` (bin/mapviewload.py:201-209) is a foreign database call. Its result rows are a parameter of `StoreResults` and `Load`.
- Environment variables, `print` diagnostics, and opening and closing files with their error returns (bin/mapviewload.py:109-195, 226-240) are configuration and I/O. They are not modelled.
- `sys.exit`, the exit codes and the script's top-level sequencing (bin/mapviewload.py:310-321) are left out beyond `Load`. In the script an `IndexError` is not caught: it ends the run with a traceback and `closeFiles` is not reached. The model instead returns `MalformedLine`.
- The division of the input file into lines by `readlines` is not modelled. The input is the list of lines, each keeping its newline.
- Files are modelled as the sequences of rows written to them. The `...Line` functions give each row's text. Buffering and flushing are not modelled.
- Python 2 strings are byte strings. The model uses Dafny character sequences.
- Replace: Python's behaviour for an empty pattern is not modelled. The only call uses the literal `GeneID:`.
- `taxID` is read into the feature but, as in the script, never used.
