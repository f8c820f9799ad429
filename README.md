# Survey transition matrices, modelled in Dafny

`survey_parser.py` turns a class-enrollment survey into one transition matrix
per subject, science and math. Each response row names, for each subject,
three sets of classes: those taken before, those taken now and those planned
next. The program works in four steps:

1. **Normalisation** (`parse_data`). It reads a synonym map from lines of the form
   `raw => canonical`. It drops the header row. Each cell is split on commas and
   each piece is stripped. A piece that is a key of the synonym map is replaced
   by its synonym, and the distinct results other than the sentinel `ignore`
   are collected into a set.
2. **Tallying** (`compute_matrix`). Over the subject's class universe, each row
   adds the following for every current class `c`:
   - one to `matrix[p][c]` and to `count[p]` for every previous class `p`;
   - one to `matrix[c][n]` for every next class `n`;
   - one to `count[c]`.
3. **Conversion** (`convert_to_transformation`). Every row is divided by
   `max(count[row], 1)`.
4. **`main`** wires these together. It uses the fixed column layout of a
   response (the `Column` enum), with science first and math second.

The model keeps the program's shape:

- Normalisation and the mapping format are pure functions over strings.
- `compute_matrix` and `convert_to_transformation` are methods whose loops
  rebuild the Python dictionaries as Dafny maps. Each method is proved equal to
  a specification function.
- The properties the tallies and the shares are meant to have are stated about those functions as lemmas:
  - entries count transitions;
  - entries are non-negative and bounded by the row's count;
  - per-row growth of the totals;
  - shares lie between zero and one;
  - zero rows stay zero.
- Python's exceptions are modelled as `Result` errors:
  - an `IndexError` on a mapping line without `=>` or on a short row;
  - a `KeyError` on an unknown class.

Files, leaves first:

- `wrappers.dfy`: `Option` and `Result`.
- `text.dfy`: `str.strip()` and `str.split(sep)`, plus a reference search `Find` (the program never calls `str.find`) that pins down where `split` cuts.
- `mapping.dfy`: the synonym map.
- `row_parser.dfy`: `parse_data`.
- `columns.dfy`: the `Column` enum and the column triples `main` passes.
- `transitions.dfy`: `compute_matrix`.
- `transition_facts.dfy`: what its tallies hold.
- `sums.dfy`: order-free sums of maps.
- `transformation.dfy`: `convert_to_transformation`.
- `survey.dfy`: `main` without its I/O.

### Behaviour of the code worth knowing

- **Empty cells.** `"".split(',')` is `[""]`, so an empty cell yields `{""}`
  unless `""` is a key of the synonym map (`RowParser.EmptyCell`). Unless `""`
  is also in the class list (a blank line strips to it), such a row then fails
  in `compute_matrix` if it is a current cell, or if it is a previous or next
  cell beside a non-empty current one.
- **Unknown classes.** A class outside the universe raises `KeyError` when it
  is looked up, modelled as `UnknownClass(row)` (`Transitions.ComputeMatrix`).
  Lookups happen only for rows with at least one current class; a row with an
  empty current set is never looked up (`Transitions.KnownIffLookupsSucceed`).
- **Row totals.** A row's total is not bounded by its count, not even for the
  current→next transitions alone. One response whose current set contains `a`
  (and whose previous set does not) gives row `a` a total of `|next|` and `count[a] = 1`
  (`TransitionFacts.RowTotalCanExceedCount`). So a converted row can sum to
  more than 1, although every single entry stays within [0, 1]
  (`Survey.ConvertedTallies`).
- **Row length.** `parse_data` does not check row length. A short row fails only when
  `compute_matrix` indexes it (`MissingColumn(row)`).

## Model

| member | source | states |
|---|---|---|
| Text.StripLeft | survey_parser.py:26 | `lstrip()` keeps a suffix of the text that does not start with whitespace |
| Text.StripRight | survey_parser.py:26 | `rstrip()` keeps a prefix of the text that does not end with whitespace |
| Text.Strip | survey_parser.py:26 | `strip()` leaves no whitespace at either end |
| Text.StripIsInfix | survey_parser.py:26 | the stripped text is a contiguous piece of the input with only whitespace cut on either side |
| Text.StripUnique | survey_parser.py:26 | a stripped text padded with whitespace strips back to exactly itself |
| Text.StripIdempotent | survey_parser.py:26 | stripping twice is stripping once |
| Text.StripKeepsAbsence | survey_parser.py:22 | stripping cannot create a separator that the text lacked |
| Text.Find | survey_parser.py:22 | a reference search (the program does not call `str.find`) that fixes where `split` makes its first cut: -1 or a position where the separator occurs |
| Text.FindIsFirst | survey_parser.py:22 | for the reference search behind `split`: no occurrence of the separator starts before the position `Find` returns |
| Text.FindNone | survey_parser.py:22 | for the reference search behind `split`: `Find` returns -1 exactly when the separator does not occur |
| Text.Split | survey_parser.py:22 | `split(sep)` always gives at least one piece; `Text.SplitAtFirst`, `Text.JoinSplit` and `Text.SplitPiecesLackSeparator` pin the pieces down |
| Text.SplitAtFirst | survey_parser.py:22 | the first piece of `split(sep)` is the text before the first separator, the rest is the split of what follows it |
| Text.SplitFirstTwo | survey_parser.py:22 | the second piece of a split is the text between the first separator and the next one, or the end |
| Text.SplitIsSingleIff | survey_parser.py:22 | a split has a single piece if and only if the separator does not occur |
| Text.JoinSplit | survey_parser.py:26 | joining the pieces of a split with the separator gives back the text |
| Text.SplitJoin | survey_parser.py:26 | splitting comma-free pieces joined by a comma gives back the pieces |
| Text.SplitPiecesLackSeparator | survey_parser.py:26 | no piece of a split contains the separator |
| Text.SplitCharPieces | survey_parser.py:26 | a split on one character has one piece more than there are occurrences of it |
| Mapping.Canonical | survey_parser.py:30 | a token that is a key becomes one of the map's canonical values, any other token is kept; `RowParser.SynonymAppliedOnce` shows the rewrite is not repeated |
| Mapping.ParseLine | survey_parser.py:22 | a mapping line parses if and only if it contains `=>`, and its key is the stripped first piece |
| Mapping.ParseLineFields | survey_parser.py:22 | the key is the stripped text before the first `=>`, the value the stripped text between the first and the second `=>` (or the end) |
| Mapping.Collect | survey_parser.py:22 | folding the parsed lines fails exactly when some line is unparsable, reports the first such line, and otherwise has exactly the lines' keys |
| Mapping.LastEntryWins | survey_parser.py:22 | the value collected for a key is that of the last entry with that key |
| Mapping.ParseMapping | survey_parser.py:21-22 | reading the mapping fails if and only if some line lacks `=>`, and reports the first such line |
| Mapping.LineKeysKept | survey_parser.py:22 | every line's key is a key of the mapping |
| Mapping.MappingKeysFromLines | survey_parser.py:22 | every key of the mapping is the key of some line |
| Mapping.LastLineWins | survey_parser.py:22 | when the same key appears on several lines, the later line's value wins |
| RowParser.PiecesAreClean | survey_parser.py:26 | every piece `Pieces` cuts from a cell is stripped and free of commas |
| RowParser.PiecesCount | survey_parser.py:26 | a cell has one piece more than it has commas |
| RowParser.Rewrite | survey_parser.py:30 | one token out per token in: each key becomes a canonical value and each other token is kept |
| RowParser.KeepClasses | survey_parser.py:34 | the kept set never holds the sentinel; `RowParser.KeepClassesElements` and `RowParser.KeepClassesSize` give its elements and its size |
| RowParser.KeepClassesElements | survey_parser.py:34 | the kept set holds every token other than the sentinel and nothing that is not a token |
| RowParser.NormaliseCell | survey_parser.py:26-34 | one cell normalised never holds the sentinel; `RowParser.CellElements` gives both directions of its element rule and `RowParser.CellSize` its size bound |
| RowParser.NormaliseRows | survey_parser.py:25-36 | rows and cells keep their shape, every cell is normalised, and no cell contains the sentinel |
| RowParser.ParseData | survey_parser.py:20-37 | a bad mapping line or a missing header fails; otherwise the header is dropped, the row and cell counts are kept, and every cell is normalised with the sentinel removed |
| RowParser.CellElements | survey_parser.py:26-34 | an element of a cell is, if and only if it is not the sentinel, some stripped piece rewritten once through the map |
| RowParser.IgnoreNeverKept | survey_parser.py:34 | the sentinel never survives normalisation, whether typed or reached through a synonym |
| RowParser.KeepClassesSize | survey_parser.py:34 | the set of kept classes is no larger than the list of tokens |
| RowParser.CellSize | survey_parser.py:26-34 | a cell yields at most one class per comma-separated piece, and a comma-free cell at most one |
| RowParser.PiecesOfTwo | survey_parser.py:26 | two comma-free texts joined by a comma give their two stripped forms as pieces |
| RowParser.RewritePair | survey_parser.py:30-34 | two tokens rewritten and filtered give their synonyms without the sentinel |
| RowParser.TwoPieceCell | survey_parser.py:26-34 | a two-piece cell yields the rewrites of both stripped pieces, without the sentinel |
| RowParser.OnePieceCell | survey_parser.py:26-34 | a comma-free cell yields the rewrite of its stripped form, unless that is the sentinel |
| RowParser.SynonymAppliedOnce | survey_parser.py:30 | synonyms are applied once: a key whose synonym is itself a key yields that synonym, not the synonym's synonym |
| RowParser.EmptyCell | survey_parser.py:26-34 | an empty cell yields the empty name (or its synonym), which is not the empty set unless `""` is mapped to the sentinel |
| RowParser.IgnoredTwice | survey_parser.py:26-34 | a cell naming the sentinel twice, such as `"ignore, ignore"`, yields the empty set, provided the sentinel is not itself a key mapped to something else |
| RowParser.SynonymBesideIgnore | survey_parser.py:26-34 | a synonym beside the sentinel, such as `"Bio Hon, ignore"`, yields just the synonym's canonical name |
| Columns.SubjectColumns | survey_parser.py:6-14 | each subject's previous, current and next columns are three distinct columns of the eight, neither timestamp nor grade |
| Columns.SubjectsDisjoint | survey_parser.py:104-107 | science and math read disjoint columns |
| Transitions.KnownIffLookupsSucceed | survey_parser.py:54-60 | `Known`, the condition `ComputeMatrix` checks, holds if and only if every lookup the loops make for the row is of a class in the universe |
| Transitions.SteppedByNothing | survey_parser.py:54-60 | a row with no current class, or with neither previous nor next classes, leaves the matrix unchanged |
| Transitions.BumpPrevious | survey_parser.py:56 | one pass of the previous-class loop adds that previous class's step towards the current class |
| Transitions.BumpIncremented | survey_parser.py:57 | one pass of the previous-class loop adds one to that class's count |
| Transitions.BumpNext | survey_parser.py:59 | one pass of the next-class loop adds the current class's step towards that next class |
| Transitions.AddPrevious | survey_parser.py:55-57 | the previous-class loop adds one step from every previous class to the current class, and one count to each previous class |
| Transitions.AddNext | survey_parser.py:58-59 | the next-class loop adds one step from the current class to every next class |
| Transitions.EntryStepSplit | survey_parser.py:54-60 | one more current class adds its previous-class steps and its next-class steps to the entries |
| Transitions.ThreeSteps | survey_parser.py:54-60 | three rounds of steps whose entries add up to those of a row are that row's steps |
| Transitions.CurrentStep | survey_parser.py:54-59 | one pass of the current-class loop adds exactly that class's share of the row's matrix steps |
| Transitions.CurrentCountStep | survey_parser.py:57-60 | one pass of the current-class loop adds `|prev|` to every previous class's count and one to the current class's count |
| Transitions.AddRow | survey_parser.py:54-60 | the loops for one row whose lookups succeed add exactly that row's steps to the matrix and to the count |
| Transitions.AfterKeys | survey_parser.py:42-47 | the matrix and the count, after any rows, are keyed by exactly the class universe |
| Transitions.MatrixAfterSquare | survey_parser.py:42-45 | every row of the matrix, after any rows, is keyed by exactly the class universe |
| Transitions.AfterSnoc | survey_parser.py:49 | the tallies after one more row are the earlier tallies with that row's steps added |
| Transitions.AddTallied | survey_parser.py:49-60 | one accepted row takes the tallies of the earlier rows to the tallies that include it |
| Transitions.ComputeMatrix | survey_parser.py:40-62 | succeeds if and only if every row has the three columns and, when its current set is non-empty, names only known classes; the result is the tallies of all rows; a failure names the first rejected row and says whether a column or a class was missing |
| TransitionFacts.SteppedEntry | survey_parser.py:54-60 | one row adds exactly its number of (x, y) transitions to `matrix[x][y]` |
| TransitionFacts.MatrixAfterEntries | survey_parser.py:42-60 | `matrix[x][y]` is the number of x→y transitions, previous→current and current→next, that the rows record |
| TransitionFacts.CountAfterEntries | survey_parser.py:47-60 | `count[x]` is the number of (x, current) pairs plus the number of rows in which x is current |
| TransitionFacts.StartsAtZero | survey_parser.py:42-47 | before any row, every entry and every count is zero |
| TransitionFacts.NeverNegative | survey_parser.py:42-60 | no entry and no count is ever negative |
| TransitionFacts.EntryStepWithinCountStep | survey_parser.py:54-60 | a row never adds more to `matrix[x][y]` than to `count[x]` |
| TransitionFacts.EntryWithinCount | survey_parser.py:54-60 | after any rows, the x→y transitions are no more than the count of x |
| TransitionFacts.TalliesWithinCount | survey_parser.py:40-62 | `matrix[x][y] <= count[x]`, and a zero count means a zero entry |
| TransitionFacts.CountTotalStep | survey_parser.py:54-60 | an accepted row raises the sum of all counts by `\|cur\|·\|prev\| + \|cur\|` |
| TransitionFacts.SteppedRowTotal | survey_parser.py:55-59 | a row raises row a's total by `\|cur\|` if a is previous and by `\|next\|` if a is current |
| TransitionFacts.MatrixTotalStep | survey_parser.py:54-60 | an accepted row raises the sum of all entries by `\|cur\|·(\|prev\| + \|next\|)` |
| TransitionFacts.SingleRowTotal | survey_parser.py:54-60 | after a single row, the total of row a is exactly that row's steps out of a |
| TransitionFacts.RowTotalCanExceedCount | survey_parser.py:54-60 | one response with a current but not previous gives row a a total of `\|next\|`, against a count of 1 |
| Transformation.Denominator | survey_parser.py:85 | the divisor is `max(count, 1)`: the count when that is at least one, and 1 otherwise |
| Transformation.Converted | survey_parser.py:83-85 | conversion keeps the rows, and the columns of every row with a count; `Transformation.RoundTrip` and `Transformation.UnitInterval` state its entries |
| Transformation.DivideRow | survey_parser.py:84-85 | the inner loop divides every entry of the row by the divisor and keeps the row's columns |
| Transformation.ConvertToTransformation | survey_parser.py:82-87 | succeeds if and only if every row with entries has a count; the result is every entry divided by `max(count[row], 1)`; a failure names a row with entries and no count |
| Transformation.ConvertedKeys | survey_parser.py:83-87 | conversion keeps the rows and every row's columns |
| Transformation.RoundTrip | survey_parser.py:85 | a converted entry times its row's divisor is the original entry |
| Transformation.SmallCountKeepsRow | survey_parser.py:85 | a row whose count is at most one is unchanged |
| Transformation.ZeroRowStaysZero | survey_parser.py:85 | an all-zero row stays all zero |
| Transformation.UnitInterval | survey_parser.py:85 | an entry between zero and its row's count becomes a share in [0, 1] |
| Survey.TalliesConvertible | survey_parser.py:104-110 | the tallies of any rows convert without a missing count |
| Survey.ConvertedTallies | survey_parser.py:104-110 | converting the tallies of any rows gives a square matrix over the universe with every share in [0, 1] |
| Survey.SubjectShares | survey_parser.py:104-110 | one subject's shares: succeeds if and only if every row is accepted for that subject, and is then the converted tallies and a square matrix of shares in [0, 1]; a failure names the first rejected row, and is a missing column (the `IndexError` of lines 50-52) exactly when that row is too short, otherwise an unknown class (the `KeyError` of lines 56-60) |
| Survey.ClassNames | survey_parser.py:96-100 | one stripped class name per line of a class list |
| Survey.ClassNamesOfNames | survey_parser.py:97 | reading a list of already stripped names gives them back |
| Survey.Run | survey_parser.py:102-110 | a failure is reported as a parse failure exactly when the parse fails; it succeeds if and only if the parse succeeds and every row is accepted for both subjects, and then both subjects' shares are the converted tallies and square matrices in [0, 1]; a tally failure names the first row rejected for its subject and is a missing column exactly when that row is too short, and a math failure implies every row was accepted for science |

## Left out

- File I/O is not modelled. The survey CSV, `mapping.txt` and the two class list files (lines 21, 92-100) become parameters:
  - the survey rows, as a sequence of rows of strings;
  - the mapping file's lines, as Python's line iteration yields them;
  - the class lists' lines, still unstripped.
- Printing and CSV output are not modelled: `print_matrix`, `write_to_csv` and `main`'s last lines (65-79, 112-116). They only render the matrices.
- Floating point is modelled as exact reals: `/` on floats becomes division of `real`s. Rounding and the IEEE-754 representation are not modelled.
- Conversion is not modelled in place. The Python divides in place and returns the same dictionary. The model builds a new map from the old one, so aliasing of the argument is not modelled.
- Dictionary and set iteration order is not modelled. Maps and sets are unordered, so the order of rows and columns in the output is not modelled.
- Transformation.ConvertToTransformation: with several rows that have entries but no count, the reported row depends on dictionary order. The contract therefore only says the row has entries and no count, not which row it is. `compute_matrix`'s own tallies always have every count, so this case does not arise in `main`.
- Transitions.ComputeMatrix: `UnknownClass(row)` names the first failing row but not the unknown class. The updates Python makes to a row before raising are not modelled either, since the exception ends the program.
- Integer width plays no role: Python integers are unbounded, and so are Dafny's.
- Text.IsWhitespace: the characters `str.isspace()` accepts are written out as a fixed list of code points. No Unicode database is consulted.
- The honors-mobility classifier (`calculate_reg_honors`) is not in `survey_parser.py`, so it is not part of this model.
