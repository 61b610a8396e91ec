# MTI annotation pipeline: a Dafny model

`MTI_api_functions.py` moves ChEMBL assay descriptions through the NLM Medical
Text Indexer (MTI) and loads the suggested MeSH terms back into an Oracle table.
This project models the parts of that script that compute something, apart from
the database, the shell and the file system around them:

- **Writing the input files** (`make_input_files`). The assay rows are cut into
  chunks of `nr_assays` rows by `grouper`. Chunk `f` (counting from 1) becomes
  the file `input<f>.txt` in the directory `000<int(1 + f / nr_files)>`. Each row
  is written as the line `"<id>"|<description>`, with `prostrate` and
  `Prostrate` corrected. Module `ChunkWriter`, file `chunk_writer.dfy`.
- **Submitting and resubmitting job arrays** (`submit_job_array_for_inputdir`,
  `redo_failed_jobs`). The array index range is the smallest to the largest
  number taken from the input file names. The files to redo are the output files
  smaller than 20000 bytes, joined with `,`. As in the script, those names are
  not filtered on `output`: every small file in the listing is redone. Module
  `JobArrays`, file `job_arrays.dfy`.
- **Loading the results** (`insert_results_into_oracle`). Every line of every
  output file becomes at most one table row. A line containing `||||` records
  an assay with no suggested terms. Any other line is split on `|` into the
  fields of one term. Module `ResultIngestor`, file `ingestor.dfy`.

The Python built-ins the script relies on are modelled in `strings.dfy` (module `Strings`) and `integers.dfy` (module
`Integers`):

- `in` on strings.
- `str.replace`: left to right, non-overlapping.
- `str.split` with a one-character separator: always at least one piece.
- `str.join`.
- `str.strip(chars)`: `chars` is a *set* of characters removed from both ends.
- `str(n)`.
- `int(s)`: surrounding space, tab, line feed, carriage return, vertical tab
  and form feed, an optional sign, and decimal digits
  with single underscores between them.

The interpreter assumed is Python 3.6 or later (underscores in `int` literals
and strings), without the limit on the number of digits that `int` and `str`
convert; that limit is listed under "## Left out".

`wrappers.dfy` holds `Option` and `Result`.

The loops of the Python code are modelled as methods with loops: the loop of
`grouper` (`Grouper`), the chunk loop of `make_input_files` (`MakeInputFiles`)
and its inner loop over the rows of one chunk (`WriteChunk`), and the file and
line loops of `insert_results_into_oracle` (`IngestOutputFiles`,
`IngestLines`). Each method is proved equal to a function. The
properties are proved about those functions.

The line parser keeps one behaviour of the Python code that its comments do not
describe. The field variables of `insert_results_into_oracle` are locals of the
whole function. When a line has fewer than nine `|`-separated fields, the
`IndexError` handler only evaluates `next`, which does nothing. The insert then
still runs, using whatever the previous line left in the fields the short line
did not reach. If one of those variables was never assigned, the insert raises
`UnboundLocalError`. Nothing catches it, so the whole load stops.
`ResultIngestor.Locals` holds those variables, with `None` for "never assigned".
The model follows the code here: a short line with an integer id is *not*
skipped.

## Model

| member | source | states |
|---|---|---|
| ChunkWriter.Chunks | MTI_api_functions.py:38-44 | there are no chunks exactly when the chunk size is 0 or there are no rows |
| ChunkWriter.Grouper | MTI_api_functions.py:38-44 | the `while True` / `islice` loop over one iterator yields exactly `Chunks(n, rows)` |
| ChunkWriter.ChunksFlatten | MTI_api_functions.py:38-44 | concatenating the chunks gives back the rows, in order |
| ChunkWriter.ChunksShape | MTI_api_functions.py:38-44 | every chunk is non-empty and at most `n` long, and every chunk but the last is exactly `n` long |
| ChunkWriter.ChunksCount | MTI_api_functions.py:53-55 | the number of chunks, and so the last file number, `k`, satisfies `(k-1)*n < rows <= k*n`; it is 0 only for no rows |
| ChunkWriter.FixTyposUnchanged | MTI_api_functions.py:66 | a description containing neither `prostrate` nor `Prostrate` is written unchanged |
| ChunkWriter.RecordLineSplits | MTI_api_functions.py:66 | splitting a written line on `\|` gives back the row: the first piece without quotes is the id as `int` reads it, and the rest is the corrected description and the newline |
| ChunkWriter.WriteChunk | MTI_api_functions.py:64-66 | the loop over one chunk writes one line per row, `"` + id + `"\|` + corrected description + newline, in row order |
| ChunkWriter.DirectoryIndexDiv | MTI_api_functions.py:57 | for a positive directory size, `int(1 + f / nr_files)` is `1 + f div nr_files` |
| ChunkWriter.DirectoryRange | MTI_api_functions.py:57 | directory index `d + 1` receives exactly the file numbers `d*nr_files` to `(d+1)*nr_files - 1`, so the first directory receives only `nr_files - 1` files |
| ChunkWriter.DefaultDirectoryBoundary | MTI_api_functions.py:57 | with 100 files per directory, file 99 goes to `0001` and file 100 already goes to `0002` |
| ChunkWriter.InputFileNamesDistinct | MTI_api_functions.py:61 | different file numbers give different file names |
| ChunkWriter.FilesCoverRows | MTI_api_functions.py:53-66 | the files' lines, concatenated in file order, are the lines of all the rows in row order |
| ChunkWriter.MakeInputFiles | MTI_api_functions.py:38-68 | fails with a negative `nr_assays` (the `islice` error, even with no rows), or when `nr_files` is 0 and there is a chunk (division by zero); otherwise file `k` is chunk `k` written under number `k + 1`, and all lines together are the lines of all rows |
| JobArrays.InputIndices | MTI_api_functions.py:87 | the extracted indices are at most as many as the names; a failure names a listed file whose index `int` rejects |
| JobArrays.InputIndicesSucceeds | MTI_api_functions.py:87 | the extraction succeeds exactly when every name containing `input` has an index that converts |
| JobArrays.InputFileIndex | MTI_api_functions.py:87 | for a written name `input<f>.txt`, the two chained strips leave exactly the digits of `f`, and `int` gives `f` |
| JobArrays.InputListingIndices | MTI_api_functions.py:87 | for a directory of written input files, the extracted indices are the file numbers in listing order |
| JobArrays.SubmitRange | MTI_api_functions.py:87-105 | the range exists exactly when the extraction succeeds with at least one index; no input file at all is its own error; the range's ends are among the indices and bound all of them |
| JobArrays.InputListingRange | MTI_api_functions.py:87-105 | for written input files the array spans the smallest to the largest file number, and an empty directory submits nothing |
| JobArrays.SubmitSpecReadsBack | MTI_api_functions.py:104-105 | for a non-negative range the job name is `myArray[<min>-<max>]%1`, and its spec splits on `-` into two texts that `int` reads back as the ends of the range |
| JobArrays.OutputIndex | MTI_api_functions.py:122 | stripping `output` from `output` followed by any non-empty string of digits leaves exactly those digits, leading zeros included |
| JobArrays.FailedNames | MTI_api_functions.py:122 | at most one name per entry; the list is empty exactly when no file is below 20000 bytes |
| JobArrays.FailedNamesAreIndices | MTI_api_functions.py:122 | for names that strip to decimal indices, the failed names are the decimal texts of the small files' indices, in listing order |
| JobArrays.ResubmitJobName | MTI_api_functions.py:122-127 | nothing is resubmitted exactly when every output file is at least 20000 bytes |
| JobArrays.ResubmitsExactlySmall | MTI_api_functions.py:122-127 | for output files `output<index>`, the resubmitted spec splits on `,` into pieces that `int` reads back as exactly the indices of the files below 20000 bytes, in listing order; nothing is resubmitted when there is none |
| ResultIngestor.NoTermsQuote | MTI_api_functions.py:200-204 | a `\|\|\|\|` line leaves the field variables alone, and raises (ending the run) exactly when it holds no `"` |
| ResultIngestor.NoTermsId | MTI_api_functions.py:200-204 | a `\|\|\|\|` line inserts one row whose id is the text between its first two `"`, with `not applicable` and `no terms suggested` |
| ResultIngestor.NonIntegerIdSkipped | MTI_api_functions.py:213 | a line whose first field `int` rejects inserts nothing and changes no variable |
| ResultIngestor.Extract | MTI_api_functions.py:210-220 | a line with at least nine fields assigns every field variable |
| ResultIngestor.FullLineRow | MTI_api_functions.py:210-229 | a line with nine fields and an integer id inserts fields 0, 1, 2, 3, 4, 5, 7 and 8 as id, descriptor text without `*`, UMLS id, score, term type, explanation, paths and descriptor id without the newline; quotes are doubled in four of them, and field 6 is not used |
| ResultIngestor.FullLineIgnoresLocals | MTI_api_functions.py:210-229 | what such a line inserts does not depend on earlier lines, and it never aborts |
| ResultIngestor.TermLineParsed | MTI_api_functions.py:210-229 | a term line written as nine `\|`-joined fields with the quoted id first is parsed back into those fields |
| ResultIngestor.EscapeRoundTrip | MTI_api_functions.py:214-219 | un-doubling the doubled quotes gives the original text back |
| ResultIngestor.ShortLineReusesValues | MTI_api_functions.py:212-229 | a line with an integer id but fewer than nine fields still inserts a row, with the previous line's descriptor id |
| ResultIngestor.ShortFirstLineAborts | MTI_api_functions.py:212-229 | the same line before any full line raises at the insert and ends the run |
| ResultIngestor.Apply | MTI_api_functions.py:197-238 | after an uncaught exception nothing changes; otherwise a line keeps the rows inserted so far and adds at most one |
| ResultIngestor.RunRowsBound | MTI_api_functions.py:197-238 | a run inserts at most one row per line |
| ResultIngestor.RunRowsGrow | MTI_api_functions.py:197-238 | rows inserted by earlier lines are never removed or reordered by later ones |
| ResultIngestor.RunAbsorbs | MTI_api_functions.py:197-238 | once an exception escaped, later lines change nothing |
| ResultIngestor.RunFromAppend | MTI_api_functions.py:189-238 | running two stretches of lines one after the other is running them together, so the variables carry over from file to file |
| ResultIngestor.RunSelfContained | MTI_api_functions.py:197-238 | when every line is a no-terms line with a `"`, a line with a non-integer id, or a line with nine fields, the run never stops early and inserts exactly the rows each line yields on its own, in order |
| ResultIngestor.IngestLines | MTI_api_functions.py:197-238 | the line loop of one file ends in exactly the state the run function gives, stopping at the first uncaught exception |
| ResultIngestor.IngestOutputFiles | MTI_api_functions.py:189-238 | the loop over the files whose name contains `output` and over their lines inserts exactly the rows of a run over all their lines, and reports the exception that ended it, if any |
| ResultIngestor.Step | MTI_api_functions.py:200-238 | defines what one output line does: a line containing `\|\|\|\|` goes to `NoTermsStep` and leaves the variables alone; any other line is split on `\|` and goes to `TermStep` |
| ResultIngestor.NoTermsStep | MTI_api_functions.py:200-204 | defines the no-terms insert: the id is the second piece of the split on `"`, and a line without `"` raises the uncaught error that ends the run |
| ResultIngestor.TermStep | MTI_api_functions.py:209-238 | defines a term line: a first field that `int` rejects skips the line; otherwise the fields present are assigned in order, and the insert uses the current values, aborting when one was never assigned |
| ResultIngestor.LineId | MTI_api_functions.py:213 | defines the id as `int` of the first field with `"` stripped from both ends |
| ResultIngestor.Escape | MTI_api_functions.py:214-219 | defines the quote doubling `replace("'", "''")`; its inverse is `EscapeRoundTrip` |
| ResultIngestor.RunFrom | MTI_api_functions.py:197-238 | defines the line loop as a fold of `Apply` over the lines from a given state |
| ResultIngestor.Run | MTI_api_functions.py:197-238 | defines a whole load: `RunFrom` starting with no rows, no variable assigned and no error |
| ResultIngestor.OutputLines | MTI_api_functions.py:189-194 | defines the lines read: the `readlines` of every file whose name contains `output`, in listing order |
| ChunkWriter.FixTypos | MTI_api_functions.py:66 | defines the two chained replaces of `prostrate` and `Prostrate` |
| ChunkWriter.RecordLine | MTI_api_functions.py:66 | defines the line written for a row, `"` + `str(id)` + `"\|` + corrected description + newline |
| ChunkWriter.ChunkLines | MTI_api_functions.py:64-66 | defines the lines of a chunk as one `RecordLine` per row, in row order; `ChunkLinesFlatten` shows that writing chunk by chunk writes the lines of all rows |
| ChunkWriter.DirectoryIndex | MTI_api_functions.py:57 | defines `int(1 + f / nr_files)` as the exact quotient truncated toward zero |
| ChunkWriter.DirectoryName | MTI_api_functions.py:57 | defines the directory name `000` + `str` of the directory index |
| ChunkWriter.InputFileName | MTI_api_functions.py:61 | defines the file name `input` + `str(f)` + `.txt` |
| ChunkWriter.FileFor | MTI_api_functions.py:57-66 | defines the file written for chunk `f`: its directory, its name and the lines of its rows |
| JobArrays.InputIndexText | MTI_api_functions.py:87 | defines the chained `strip('.txt').strip('input')` of a listed name |
| JobArrays.JobArrayName | MTI_api_functions.py:104 | defines the job name `myArray[<spec>]%1` |
| JobArrays.SubmitJobName | MTI_api_functions.py:104-105 | defines the submitted name: `myArray[<min>-<max>]%1` from `SubmitRange`, or its error |
| JobArrays.OutputIndexText | MTI_api_functions.py:122 | defines `strip('output')` of a listed name |
| Integers.ParseInt | MTI_api_functions.py:87 | defines `int(s)`: space, tab, line feed, carriage return, vertical tab and form feed stripped, an optional sign, digits with single underscores between them, and no value otherwise; `ParseIntToString` is its round trip with `str` |
| Integers.SeparatorNotWhitespace | MTI_api_functions.py:213 | any text starting with the separator character `\x1c`, such as `\x1c5`, is rejected by `int`: it is not whitespace to `int`, unlike to `str.isspace` |
| Integers.IntToString | MTI_api_functions.py:66 | defines `str(n)`: a `-` for negative numbers and the decimal digits without leading zeros |
| Integers.SeqMin | MTI_api_functions.py:105 | `min(inputfiles)`: the result is in the list and at most every element |
| Integers.SeqMax | MTI_api_functions.py:105 | `max(inputfiles)`: the result is in the list and at least every element |
| Strings.Contains | MTI_api_functions.py:200 | defines `sub in s`; `ContainsAt` proves it equal to "occurs at some offset" |
| Strings.Replace | MTI_api_functions.py:66 | defines `str.replace`, left to right without overlap; `ReplaceAbsent` shows it changes nothing when the target does not occur |
| Strings.Join | MTI_api_functions.py:123 | defines `sep.join(parts)`; `JoinSplit` and `SplitJoin` pair it with `Split` |
| Strings.Split | MTI_api_functions.py:210 | `str.split` with a one-character separator always gives at least one piece; `SplitJoin` shows the pieces joined give the line back |
| Strings.SplitJoin | MTI_api_functions.py:210 | joining the pieces of a split with the separator gives the line back |
| Strings.JoinSplit | MTI_api_functions.py:123 | separator-free pieces joined with `,` split back into the same pieces |
| Strings.Strip | MTI_api_functions.py:87 | the result is no longer than the input, and neither of its ends is a character of the set |
| Strings.StripSlice | MTI_api_functions.py:87 | the result is one slice `s[i..j]` of the input, and every character before `i` and from `j` on is in the set |
| Strings.StripIdempotent | MTI_api_functions.py:87 | stripping twice with the same set is stripping once |
| Integers.ParseIntToString | MTI_api_functions.py:66 | `int(str(n)) == n` for every integer |

## Left out

- `get_assay_descriptions`, `create_db_tables`, `create_indexes` and every `engine.execute` call are SQL sent to Oracle. Inserts are returned as `Row` values. Errors raised by the database, such as a `score` that is not a number, are not modelled.
- The file system: `os.makedirs`, the `rm -rf` of the input directory, `os.listdir`, `os.path.getsize`, and opening, reading and writing files. Listings come in as sequences of names, or of `(name, size)` entries. File contents come in as the lines `readlines` would return. Files to write are returned as `(directory, name, lines)`. The order of `os.listdir` is whatever order the listing is given in.
- The `bsub` command line and running it: the Java MTI client, the scheduler, the `%1` throttle, and the error and output paths. Only the array name `myArray[<spec>]%1` is modelled. The `str.format` pass over the whole command, user paths included, is not modelled.
- Logging calls, which compute nothing that is kept.
- Floating point: `int(1 + filenumber / nr_files)` is modelled as the exact quotient truncated toward zero. Rounding of very large file numbers in the float division is not modelled.
- `int` also accepts non-ASCII digits and Unicode whitespace. Only ASCII is modelled.
- Integers.ParseInt: the limit on digits converted (4300 by default, in CPython 3.11 and later and in the 3.7.14, 3.8.14, 3.9.14 and 3.10.7 security releases) is not modelled. Such an interpreter raises `ValueError` for longer digit strings. So a term line whose id has more than 4300 digits is skipped there, while `ResultIngestor.Step` inserts a row for it.
- Integers.IntToString: the same digit limit on `str(n)` is not modelled. There, `str` raises `ValueError` for integers of more than 4300 digits.
- Integers.ParseIntToString: `int(str(n)) == n` is proved for every integer. On interpreters with the digit limit it holds only for integers below 10^4300 in absolute value.
- ChunkWriter.MakeInputFiles: `islice` also raises `ValueError` for an `nr_assays` larger than `sys.maxsize`. That error is not modelled; any positive size is accepted.
- ChunkWriter.MakeInputFiles: `db_result` is modelled as a finite sequence of `(id, description)` rows. A description that is not a string, or a row with fewer than two items, is not modelled.
