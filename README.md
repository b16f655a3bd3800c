# OGU+ORF ssRNA quantitation (pysyndna `quant_orfs.py`) in Dafny

This project models the OGU+ORF branch of pysyndna. That branch turns woltka
read counts per OGU+ORF (an open reading frame within an operational genomic
unit) into absolute quantities: copies of each OGU+ORF's ssRNA per gram of
sample. The model has four parts.

- **Coordinates reader** (`CoordsParser`, `CoordsFormat`). This models
  `read_ogu_orf_coords_to_df` on lines already read from the file. It is a
  loop over the lines, a method proved equal to a snoc-recursive
  specification. A line that starts with `>G` after stripping sets the current
  genome id to the line with every `>` removed. Every other line is split on
  tabs and gives one row: id `genome + "_" + orf`, and start and end read with
  Python's `int()`. A missing field, a non-integer field and a record before
  any header (Python's `None + str`) are errors. Each error carries its line
  and stops the read. `CoordsFormat` writes a whole file, one genome block
  after another, and proves that reading it back gives exactly the written
  rows.
- **Python string primitives** (`PyStrings`). `str.strip` uses Python's
  whitespace set. Also modelled: `str.startswith`, `str.replace(c, "")`,
  `str.split(c)` with its inverse `join`, `int()` on decimal strings (sign,
  single underscores between digits, and surrounding whitespace, where `int()`
  skips less than `strip()`: not the ASCII separators U+001C to U+001F) and
  `str()` of an integer. Stripping is defined once over a whitespace predicate,
  `IsSpace` for `strip()` and `IsIntSpace` for `int()`.
- **Copies-per-gram table** (`OrfCopies`). This models
  `_calc_ogu_orf_copies_per_g_from_coords`. A method makes the three
  successive assignments to the length column, `end - start`, `abs` and
  `+ 1`. It then attaches copies per gram, computed from the length by the
  shared utility, and indexes the rows by OGU+ORF id.
- **Projection and driver** (`Projection`, `QuantOrfs`). The projection is
  `_calc_copies_of_ogu_orf_ssrna_per_g_sample_from_dfs`, a pure chain of four
  non-in-place transforms of the sparse count matrix: divide by total
  biological reads, multiply by the grams of ssRNA in the elute, multiply by
  the feature's copies per gram, divide by the aliquot mass. The driver
  `calc_copies_of_ogu_orf_ssrna_per_g_sample_from_dfs` does these steps in
  order:
  1. Check that the required parameter columns exist.
  2. Check that every reads sample has parameters.
  3. Filter samples on every required column except the sample id.
  4. Build the copies table and project it.
  5. Concatenate the logs.

The matrix is `Tables.Matrix`: a sequence of feature ids, a sequence of sample
ids and a `map<(string, string), real>` of stored (nonzero in biom) cells. The
subset type `CountMatrix` keeps ids distinct and cells on known ids.
Parameters are a column set and rows keyed by sample id, with cells that are
numbers, text or missing. Arithmetic is on `real`.

The shared utilities in `pysyndna/src/util.py` are not part of this model, and
the model uses them as follows:
- The copies-per-gram-of-length formula is a parameter `copiesPerG: int -> real`.
- The grams of ssRNA in the elute is a parameter
  `gramsInElute: (real, real) -> real`. It is applied to a sample's RNA
  concentration and elution volume.
- The sample filter is a parameter of type `QuantOrfs.SampleFilter`.
- Column validation is the set difference of required and present columns.
- Sample-id consistency follows the comment at
  `pysyndna/src/quant_orfs.py:286-289`: an error exactly when some sample of
  the reads table has no parameters row. Extra parameter rows are tolerated.
- Casting is the identity, because cells are already typed.
- The three key constants of the utilities (sample id, aliquot mass, elution
  volume) are distinct constructors of `Tables.Column`.

A line is a header only if, once stripped, it starts with `>G`
(`pysyndna/src/quant_orfs.py:197`); a line starting with any other `>` is read
as a record.

## Model

| member | source | states |
|---|---|---|
| CoordsParser.Classify | pysyndna/src/quant_orfs.py:196-203 | A header's genome holds no `>` and a record's ORF id holds no tab. It is the per-line definition (strip, `>G` test, `>` removal, tab split, `Span`) that ClassifyHeaderLine, ClassifyRecordLine and the reader lemmas are about. |
| CoordsParser.Span | pysyndna/src/quant_orfs.py:200-203 | The span is read exactly when there are at least three fields and the second and third are integers, and is then those two integers. Otherwise the error is the first failure in Python's order: second field missing, second not an integer, third missing, third not an integer. |
| CoordsParser.CoordsOf | pysyndna/src/quant_orfs.py:190-218 | A successful read gives three equal-length columns (id, start, end) and no other column. A failed read names a line of the input. |
| CoordsParser.Step | pysyndna/src/quant_orfs.py:196-207 | What one line does to the reader: a header never fails and sets the current genome; a record either fails with its own line number or appends exactly one id, one start and one end to the three lists, keeping everything already in them. |
| CoordsParser.ParseKinds | pysyndna/src/quant_orfs.py:195-207 | The loop over all lines, the function the reading loop's invariant names: on success the three lists have equal length, at most one entry per line; on failure the error names a line of the input. |
| CoordsParser.ReadOguOrfCoords | pysyndna/src/quant_orfs.py:190-218 | The reading loop, with its strip, `>G` test, `>` removal, tab split, two `int()` calls and three appends, returns exactly `CoordsOf(lines)`. The loop invariant ties the current genome and the three lists to the specification after every prefix of lines. |
| CoordsParser.ParseRows | pysyndna/src/quant_orfs.py:199-207 | After a successful read, the id, start and end lists have one entry per record line (so equal lengths), in input order. Entry k is `genome + "_" + orf` of the k-th record line, where genome is the last header before that line, and the integer start and end of that line. |
| CoordsParser.ParseSucceedsIff | pysyndna/src/quant_orfs.py:196-207 | The read succeeds if and only if every non-header line has a second and third integer field and follows some header. |
| CoordsParser.ParseFirstError | pysyndna/src/quant_orfs.py:199-204 | A failed read reports the first failing record line: its line number and which field was missing or non-integer, or that no genome header came before it. Every earlier record line reads successfully. |
| CoordsParser.GenomeInState | pysyndna/src/quant_orfs.py:196-198 | After a successful read the current genome is that of the last header line. |
| CoordsParser.RecordLines | pysyndna/src/quant_orfs.py:199-207 | The rows come from non-header lines, in strictly increasing line order, so a header line produces no row. |
| CoordsParser.RecordLinesComplete | pysyndna/src/quant_orfs.py:199-207 | Every non-header line is among the lines that give rows. |
| CoordsParser.ErrorSticks | pysyndna/src/quant_orfs.py:195-207 | An exception on some line ends the whole read with that same error. |
| CoordsParser.RecordRow | pysyndna/src/quant_orfs.py:202-204 | Every error from a record line carries that line's number. |
| CoordsFormat.ClassifyHeaderLine | pysyndna/src/quant_orfs.py:196-198 | A header line `>` + g, where g starts with `G`, contains no `>` and ends in a non-space, reads back as genome g. |
| CoordsFormat.ClassifyRecordLine | pysyndna/src/quant_orfs.py:199-203 | The line `orf TAB str(start) TAB str(end)` reads back as orf, start and end, for a nonempty orf without a tab or leading whitespace that does not start with `>G`. |
| CoordsFormat.RecordLineShape | pysyndna/src/quant_orfs.py:196-197 | Such a record line is unchanged by `strip()` and is not taken for a header. |
| CoordsFormat.GenomeKinds | pysyndna/src/quant_orfs.py:196-203 | A written genome block reads as one header followed by one well-formed record per ORF. |
| CoordsFormat.RecordKindAt | pysyndna/src/quant_orfs.py:199-203 | Line i + 1 of a written genome block reads as the i-th ORF's record. |
| CoordsFormat.KindsAppend | pysyndna/src/quant_orfs.py:195-203 | Each line is classified on its own, so the kinds of two files laid end to end are the kinds of each, in order. |
| CoordsFormat.ExtendSnoc | pysyndna/src/quant_orfs.py:204-207 | Reading one more record of a block appends exactly one id `genome + "_" + orf`, one start and one end. |
| CoordsFormat.ReadBlockPrefix | pysyndna/src/quant_orfs.py:195-207 | From any reader state, after a block's header and its first j record lines, the reader holds that block's genome and the earlier rows followed by the block's first j rows. |
| CoordsFormat.ReadBlockKinds | pysyndna/src/quant_orfs.py:195-207 | From any reader state, a header followed by one well-formed record per ORF extends the state by the whole block. |
| CoordsFormat.ReadBlock | pysyndna/src/quant_orfs.py:195-207 | From any reader state, the lines of one written block extend the state by that block's rows. |
| CoordsFormat.ReadFileState | pysyndna/src/quant_orfs.py:195-207 | Reading a written file of any number of genome blocks succeeds, and the reader holds every block's rows, block after block, and the last block's genome. |
| CoordsFormat.ReadCoordsFile | pysyndna/src/quant_orfs.py:190-218 | Reading a written file of any number of genome blocks gives exactly the written rows: for each block in order, one row per ORF with id `genome + "_" + orf` and the written start and end, and no other columns. |
| CoordsFormat.ReadGenomeLines | pysyndna/src/quant_orfs.py:190-218 | For one genome block the read succeeds, row i is `genome + "_" + orf`, start and end of the i-th written ORF, and there is one row per ORF. |
| PyStrings.Strip | pysyndna/src/quant_orfs.py:196 | `strip()` (with `IsSpace`) never lengthens its input. It is the definition that StripParts and StripNoop characterise. |
| PyStrings.StartsWith | pysyndna/src/quant_orfs.py:197 | `s.startswith(p)`: p is a prefix of s. The definition the header test and ClassifyHeaderLine and RecordLineShape use. |
| PyStrings.RemoveChar | pysyndna/src/quant_orfs.py:198 | `replace(c, "")` leaves no c and never lengthens its input. RemoveCharParts, RemoveCharSnoc and RemoveCharAbsent say what else it keeps. |
| PyStrings.Split | pysyndna/src/quant_orfs.py:200 | `split(c)` always gives at least one piece. The pieces are characterised by SplitPiecesFree, SplitJoinsBack and SplitJoin. |
| PyStrings.ParseInt | pysyndna/src/quant_orfs.py:202-203 | `int()` on a string, skipping only `IsIntSpace` around an optional sign and a digit run: the definition that ParseIntRoundTrip and ParseIntKeepsSeparators are about. |
| PyStrings.ParseIntKeepsSeparators | pysyndna/src/quant_orfs.py:202-203 | A field `U+001C` + `816` is not an integer for `int()`, although `strip()` would remove the U+001C. |
| PyStrings.StripLeftParts | pysyndna/src/quant_orfs.py:196 | The left strip of s is a suffix of s. Everything removed is whitespace (for the given whitespace predicate), and the result is empty or starts with a non-space. |
| PyStrings.StripRightParts | pysyndna/src/quant_orfs.py:196 | The right strip of s is a prefix of s. Everything removed is whitespace (for the given whitespace predicate), and the result is empty or ends with a non-space. |
| PyStrings.StripParts | pysyndna/src/quant_orfs.py:196 | `strip()` returns a contiguous slice of s, removes only whitespace on both sides, and leaves no whitespace at either end. |
| PyStrings.StripNoop | pysyndna/src/quant_orfs.py:196 | A string without whitespace at either end is unchanged by `strip()`. |
| PyStrings.RemoveCharParts | pysyndna/src/quant_orfs.py:198 | `replace(">", "")` leaves no `>` and keeps every other character as often as before. |
| PyStrings.RemoveCharAbsent | pysyndna/src/quant_orfs.py:198 | `replace(c, "")` on a string without c is the identity. |
| PyStrings.RemoveCharSnoc | pysyndna/src/quant_orfs.py:198 | Removing c from `s + [d]` is removing it from s, then keeping d unless d is c. With `RemoveChar([], c) == []` this fixes the result, so the kept characters stay in their order. |
| PyStrings.SplitPiecesFree | pysyndna/src/quant_orfs.py:200 | No piece of `split("\t")` contains a tab. |
| PyStrings.SplitJoinsBack | pysyndna/src/quant_orfs.py:200 | The pieces of `split("\t")`, joined with tabs, give back the line. |
| PyStrings.SplitJoin | pysyndna/src/quant_orfs.py:200 | Splitting a tab-join of tab-free pieces gives back exactly those pieces. |
| PyStrings.FirstIndexOf | pysyndna/src/quant_orfs.py:200 | The index found holds the separator, and no separator comes before it. |
| PyStrings.FirstIndexAfter | pysyndna/src/quant_orfs.py:200 | The first separator of `a + sep + b`, for a separator-free a, is the one right after a. |
| PyStrings.NatToString | pysyndna/src/quant_orfs.py:202-203 | A natural number's decimal text is nonempty and starts and ends with a digit. |
| PyStrings.NatToStringValue | pysyndna/src/quant_orfs.py:202-203 | That text is a valid digit run whose value is the number. |
| PyStrings.NatToStringDigits | pysyndna/src/quant_orfs.py:202-203 | Every character of `str(n)` for a natural n is a decimal digit. |
| PyStrings.IntToStringPlain | pysyndna/src/quant_orfs.py:200-203 | `str(n)` holds no tab and does not end in whitespace, so it survives `strip()` and the tab split as one field. |
| PyStrings.ParseIntRoundTrip | pysyndna/src/quant_orfs.py:202-203 | `int(str(n)) == n` for every integer n. |
| OrfCopies.Abs | pysyndna/src/quant_orfs.py:54-55 | `.abs()` on an integer: not negative, and equal to x or to -x. |
| OrfCopies.ElementLength | pysyndna/src/quant_orfs.py:47-57 | The length is at least 1. Minus one, it equals `end - start` or `start - end`, whichever is not negative. So start > end is allowed. |
| OrfCopies.ElementLengthSymmetric | pysyndna/src/quant_orfs.py:49-57 | Swapping start and end does not change the length. |
| OrfCopies.CopiesPerGFrame | pysyndna/src/quant_orfs.py:45-65 | The result keeps every row, and its ids, starts, ends and other columns, in order. Only the length and copies columns are added or replaced, and the rows are indexed by OGU+ORF id. Row i has length `ElementLength(start_i, end_i)` and copies `copiesPerG(length_i)`. |
| OrfCopies.CalcCopiesPerGFromCoords | pysyndna/src/quant_orfs.py:45-67 | The three successive assignments to the length column, then the copies column and the index, give exactly `CopiesPerGFrame`. |
| OrfCopies.CopiesPerGOf | pysyndna/src/quant_orfs.py:149-150 | A lookup `.at[id, copies]` succeeds only for an id in the index. It returns that row's copies per gram. |
| Tables.NumberAt | pysyndna/src/quant_orfs.py:127 | A parameter lookup `.at[sample, column]` gives a number exactly when the sample row and the column exist and the cell is numeric. |
| Projection.SampleValue | pysyndna/src/quant_orfs.py:107-111 | A sample's reads, mass or ssRNA grams are found only for a sample that has a parameters row. The ssRNA grams need both the concentration and the elution volume. |
| Projection.CellCopiesPerG | pysyndna/src/quant_orfs.py:125-163 | The per-cell composition of the four transforms: the definition that CellCopiesPerGFormula, CellUnit and CellZero are about. |
| Projection.LookupAll | pysyndna/src/quant_orfs.py:125-130 | Looking a value up for every id on an axis succeeds if and only if every id has one. On success each id maps to its value. On failure the reported id has none and every earlier id has one. |
| Projection.SampleFactors | pysyndna/src/quant_orfs.py:107-160 | The per-sample values of one quantity succeed exactly when every sample has that quantity. Otherwise the error names a sample lacking it. |
| Projection.FeatureFactors | pysyndna/src/quant_orfs.py:149-153 | The per-feature copies per gram succeed exactly when every feature has copies in the copies table. Otherwise the error names a feature lacking it. |
| Projection.ScaleSamples | pysyndna/src/quant_orfs.py:125-163 | A sample-axis transform keeps the ids and the stored cells. Each cell is scaled by its sample's factor. |
| Projection.ScaleFeatures | pysyndna/src/quant_orfs.py:151-153 | An observation-axis transform keeps the ids and the stored cells. Each cell is scaled by its feature's factor. |
| Projection.Chain | pysyndna/src/quant_orfs.py:118-163 | The four transforms in order keep the ids and the stored cells. Each cell becomes `CellCopiesPerG` of its count and its sample's and feature's values. |
| Projection.CellCopiesPerGFormula | pysyndna/src/quant_orfs.py:125-163 | A cell's value in closed form is `count / total_reads * ssrna_g * copies_per_g / aliquot_mass_g`. |
| Projection.ProjectCopiesPerGSample | pysyndna/src/quant_orfs.py:100-165 | On success the log is empty (line 100). The output is a new matrix with the same feature ids, sample ids and stored cells. |
| Projection.ProjectSucceedsIff | pysyndna/src/quant_orfs.py:125-163 | The projection succeeds if and only if every sample has reads, ssRNA grams and mass, and every feature has copies per gram. |
| Projection.ProjectErrorOrder | pysyndna/src/quant_orfs.py:125-163 | A missing value is reported by the first stage that looks it up: reads, then ssRNA grams, then copies per gram, then mass. The error names an id lacking the value. |
| Projection.ProjectCells | pysyndna/src/quant_orfs.py:125-163 | Every stored cell becomes count / total reads * ssRNA grams * copies per gram / aliquot mass, for its sample and feature, with nonzero divisors. |
| Projection.ProjectUnitFactors | pysyndna/src/quant_orfs.py:128-163 | With every per-sample factor and every copies per gram equal to 1, the output is exactly the input matrix, with an empty log. |
| Projection.UnitCells | pysyndna/src/quant_orfs.py:128-163 | With unit factors every stored cell keeps its count. |
| Projection.ProjectKeepsZeros | pysyndna/src/quant_orfs.py:128-163 | A cell that reads as zero in the input, whether stored as zero or not stored at all, reads as zero in the output. |
| Projection.DivisorsFound | pysyndna/src/quant_orfs.py:127-160 | For the matrix's samples, a reads or mass value that is found is never zero under the nonzero-divisor assumption on those samples. |
| QuantOrfs.AbsentParamColumns | pysyndna/src/quant_orfs.py:282-284 | A required column counts as missing exactly when the parameters table lacks it. |
| QuantOrfs.SamplesWithoutParams | pysyndna/src/quant_orfs.py:286-292 | A reads-table sample is reported exactly when it has no parameters row. Parameter rows absent from the reads table are ignored. |
| QuantOrfs.FilterColumns | pysyndna/src/quant_orfs.py:311-313 | The filter columns are every required parameter column except the sample id. |
| QuantOrfs.CalcCopiesOfOguOrfSsrnaPerGSampleFromDfs | pysyndna/src/quant_orfs.py:252-332 | Missing required columns are reported first, then reads samples without parameters. Otherwise the run succeeds if and only if every value the projection needs is available for the filtered table. On failure it gives the projection's error. On success the log is exactly the filter's log, followed by the empty projection log. The output has the filtered table's ids and stored cells, and each cell equals count / reads * ssRNA grams * copies per gram / mass. |

## Left out

- Opening and reading the coordinates file (`pysyndna/src/quant_orfs.py:194-195`): the reader takes the file's lines as a sequence.
- `validate_and_cast_ogu_orf_coords_df` (lines 221-249), called at lines 217 and 320: a `Tables.CoordsFrame` always has the three coordinate columns, so its missing-column error cannot arise. Its cast is the identity.
- The shared utilities of `pysyndna/src/util.py` are not part of this model. The copies-per-gram formula, the grams-in-elute formula and the sample filter are parameters. Their messages are not modelled.
- `Projection.SampleValue`: the grams-in-elute helper is assumed to read the sample's RNA concentration and elution volume. Its formula over those two values is a parameter.
- `cast_cols` (lines 294-304): cells are already numbers, text or missing, so casting is the identity. A text or missing cell is a failed lookup rather than Python's NaN or TypeError.
- Floating point: arithmetic is on `real`, so there is no rounding, NaN or infinity. The projection requires nonzero reads and mass values for the samples of the matrix it divides, and the driver for the samples left after filtering (`Projection.NonZeroDivisors`). Python would produce infinities there instead.
- OrfCopies.ElementLength: the length is proved over unbounded integers. The int64 wrap-around of pandas columns in `end - start`, `abs` and `+ 1` (lines 51-57) is not modelled.
- Duplicate OGU+ORF ids in the copies table: pandas `.at` would return several rows. The model treats such a lookup as failed.
- Overwriting the parameters table's index in place (lines 104-105 and 306-309): the parameters rows are already keyed by sample id.
- `int()` on non-ASCII decimal digits, which Python accepts, is not modelled. Such a field counts as not an integer.
- PyStrings.ParseInt: Python's limit on integer text (since Python 3.11, by default more than 4300 digits raise ValueError, and `sys.set_int_max_str_digits` changes it) is not modelled. The model reads a digit run of any length.
- The biom and pandas mechanics of `transform` (axis plumbing, sparse storage of zeros): the matrix stores exactly the cells it has.
- The file-path wrapper (lines 335-381) and the Qiita wrapper (lines 384-451): they only read files, merge tables and join strings.
- `fit_syndna_models.py` and `pysyndna/__init__.py`: their regression fitting, statistics and re-exports are not part of this model.
