/**
 * The input side of the pipeline (`make_input_files`): the assay rows read from
 * the database are cut into chunks of `nr_assays` rows; chunk number `f`
 * (counting from 1) becomes the file `input<f>.txt` in the directory
 * `000<1 + f / nr_files>`, one line `"<id>"|<description>` per row.
 */
module ChunkWriter {
  import opened Wrappers
  import opened Strings
  import opened Integers

  /** One row of the assay query: the assay id and its description. */
  datatype AssayRecord = AssayRecord(id: int, description: string)

  /** One input file as it would be written: its directory, its name and its lines. */
  datatype InputFile = InputFile(directory: string, fileName: string, lines: seq<string>)

  /**
   * Why no file is written: `islice` refuses a negative chunk size, and
   * `filenumber / nr_files` divides by zero once there is a chunk.
   */
  datatype WriteError = NegativeChunkSize | ZeroFilesPerDirectory

  function Flatten<T>(ss: seq<seq<T>>): seq<T>
  {
    if |ss| == 0 then [] else ss[0] + Flatten(ss[1..])
  }

  lemma {:induction false} FlattenAppend<T>(ss: seq<seq<T>>, s: seq<T>)
    ensures Flatten(ss + [s]) == Flatten(ss) + s
  {
    if |ss| > 0 {
      assert (ss + [s])[1..] == ss[1..] + [s];
      FlattenAppend(ss[1..], s);
    } else {
      assert ss + [s] == [s];
    }
  }

  /**
   * The chunks `grouper(n, rows)` yields: consecutive slices of `n` rows, the
   * last one possibly shorter. With `n == 0` the first `islice` is empty, so
   * there is no chunk at all.
   */
  function Chunks<T>(n: nat, rows: seq<T>): (chunks: seq<seq<T>>)
    ensures chunks == [] <==> n == 0 || rows == []
    decreases |rows|
  {
    if n == 0 || |rows| == 0 then []
    else if |rows| <= n then [rows]
    else [rows[..n]] + Chunks(n, rows[n..])
  }

  /** Concatenating the chunks gives back the rows, in order. */
  lemma {:induction false} ChunksFlatten<T>(n: nat, rows: seq<T>)
    requires n > 0
    ensures Flatten(Chunks(n, rows)) == rows
    decreases |rows|
  {
    if |rows| > n {
      ChunksFlatten(n, rows[n..]);
      assert rows[..n] + rows[n..] == rows;
    } else if |rows| > 0 {
      assert Chunks(n, rows) == [rows];
      assert Flatten([rows]) == rows + Flatten([rows][1..]);
      assert rows + [] == rows;
    }
  }

  /** Every chunk is non-empty and at most `n` long; all but the last are exactly `n` long. */
  lemma {:induction false} ChunksShape<T>(n: nat, rows: seq<T>)
    ensures var chunks := Chunks(n, rows);
      forall k :: 0 <= k < |chunks| ==>
        && 0 < |chunks[k]| <= n
        && (k < |chunks| - 1 ==> |chunks[k]| == n)
    decreases |rows|
  {
    if n > 0 && |rows| > n {
      ChunksShape(n, rows[n..]);
      var chunks := Chunks(n, rows);
      assert forall k :: 0 < k < |chunks| ==> chunks[k] == Chunks(n, rows[n..])[k - 1];
    }
  }

  /** There are `ceil(|rows| / n)` chunks: `k` chunks hold more than `(k - 1) * n` and at most `k * n` rows. */
  lemma {:induction false} ChunksCount<T>(n: nat, rows: seq<T>)
    requires n > 0
    ensures var k := |Chunks(n, rows)|; (k - 1) * n < |rows| <= k * n || (k == 0 && rows == [])
    decreases |rows|
  {
    if |rows| > n {
      ChunksCount(n, rows[n..]);
      var k := |Chunks(n, rows[n..])|;
      assert |Chunks(n, rows)| == k + 1;
      assert (k - 1) * n + n == k * n;
      assert k * n + n == (k + 1) * n;
    }
  }

  /** One step of `grouper`: the next chunk is the next `n` rows, or all that is left. */
  lemma ChunksStep<T>(n: nat, rows: seq<T>, pos: nat)
    requires n > 0 && pos < |rows|
    ensures var stop := if pos + n <= |rows| then pos + n else |rows|;
      Chunks(n, rows[pos..]) == [rows[pos..stop]] + Chunks(n, rows[stop..])
  {
    var rest := rows[pos..];
    if |rest| <= n {
      assert rows[pos..|rows|] == rest;
      assert rows[|rows|..] == [];
    } else {
      assert rest[..n] == rows[pos..pos + n];
      assert rest[n..] == rows[pos + n..];
    }
  }

  /**
   * `grouper(n, iterable)`: pull `islice(it, n)` from one iterator until a chunk
   * comes back empty. The position `pos` stands for the iterator's state.
   */
  method Grouper<T>(n: nat, rows: seq<T>) returns (chunks: seq<seq<T>>)
    ensures chunks == Chunks(n, rows)
  {
    chunks := [];
    var pos := 0;
    while true
      invariant 0 <= pos <= |rows|
      invariant chunks + Chunks(n, rows[pos..]) == Chunks(n, rows)
      decreases |rows| - pos
    {
      var stop := if pos + n <= |rows| then pos + n else |rows|;
      var chunk := rows[pos..stop];
      if chunk == [] {
        assert n == 0 || pos == |rows|;
        assert chunks + [] == chunks;
        return;
      }
      ChunksStep(n, rows, pos);
      assert chunks + Chunks(n, rows[pos..]) == (chunks + [chunk]) + Chunks(n, rows[stop..]);
      chunks := chunks + [chunk];
      pos := stop;
    }
  }

  /** The two literal corrections applied to every description before it is written. */
  function FixTypos(description: string): string
  {
    Replace(Replace(description, "prostrate", "prostate"), "Prostrate", "Prostate")
  }

  /** A description with neither typo is written unchanged. */
  lemma FixTyposUnchanged(description: string)
    requires !Contains(description, "prostrate") && !Contains(description, "Prostrate")
    ensures FixTypos(description) == description
  {
    ReplaceAbsent(description, "prostrate", "prostate");
    ReplaceAbsent(description, "Prostrate", "Prostate");
  }

  /** The line written for one row: `"<id>"|<description>` and a newline. */
  function RecordLine(r: AssayRecord): string
  {
    "\"" + IntToString(r.id) + "\"|" + FixTypos(r.description) + "\n"
  }

  lemma IntToStringPlain(n: int)
    ensures var s := IntToString(n);
      |s| > 0 && '|' !in s && '"' !in s && s[0] != '"' && s[|s| - 1] != '"'
  {
    var s := IntToString(n);
    assert forall i :: 0 <= i < |s| ==> IsDigit(s[i]) || s[i] == '-';
  }

  /**
   * Splitting a written line on `|` gives back the row: the first piece with
   * its quotes stripped is the id as `int` reads it, the rest is the corrected
   * description and the newline.
   */
  lemma RecordLineSplits(r: AssayRecord)
    ensures var fields := Split(RecordLine(r), '|');
      && ParseInt(Strip(fields[0], "\"")) == Some(r.id)
      && Join(fields[1..], "|") == FixTypos(r.description) + "\n"
  {
    var id := IntToString(r.id);
    var quoted := "\"" + id + "\"";
    var rest := FixTypos(r.description) + "\n";
    IntToStringPlain(r.id);
    assert RecordLine(r) == quoted + ['|'] + rest;
    SplitAfterPiece(quoted, '|', rest);
    SplitJoin(rest, '|');
    StripAround("\"", id, "\"", "\"");
    ParseIntToString(r.id);
  }

  /** The lines of one chunk, in order. */
  function ChunkLines(chunk: seq<AssayRecord>): (lines: seq<string>)
  {
    seq(|chunk|, k requires 0 <= k < |chunk| => RecordLine(chunk[k]))
  }

  lemma ChunkLinesAppend(a: seq<AssayRecord>, b: seq<AssayRecord>)
    ensures ChunkLines(a + b) == ChunkLines(a) + ChunkLines(b)
  {
  }

  /** Writing chunk by chunk writes the lines of all rows, in order. */
  lemma {:induction false} ChunkLinesFlatten(chunks: seq<seq<AssayRecord>>)
    ensures Flatten(seq(|chunks|, k requires 0 <= k < |chunks| => ChunkLines(chunks[k])))
         == ChunkLines(Flatten(chunks))
  {
    if |chunks| > 0 {
      var files := seq(|chunks|, k requires 0 <= k < |chunks| => ChunkLines(chunks[k]));
      var rest := seq(|chunks| - 1, k requires 0 <= k < |chunks| - 1 => ChunkLines(chunks[1..][k]));
      assert files[1..] == rest;
      ChunkLinesFlatten(chunks[1..]);
      ChunkLinesAppend(chunks[0], Flatten(chunks[1..]));
    }
  }

  /** `int(1 + filenumber / nr_files)`: the exact quotient, truncated toward zero. */
  function DirectoryIndex(fileNumber: int, nrFiles: int): int
    requires nrFiles != 0
  {
    TruncDiv(nrFiles + fileNumber, nrFiles)
  }

  /** For a positive directory size the directory index is `1 + fileNumber div nrFiles`. */
  lemma DirectoryIndexDiv(fileNumber: nat, nrFiles: int)
    requires nrFiles > 0
    ensures DirectoryIndex(fileNumber, nrFiles) == 1 + fileNumber / nrFiles
  {
    var q, r := fileNumber / nrFiles, fileNumber % nrFiles;
    assert nrFiles + fileNumber == (q + 1) * nrFiles + r;
    DivUnique(nrFiles + fileNumber, nrFiles, q + 1, r);
  }

  /**
   * Directory `d + 1` holds exactly the files numbered `d * nrFiles` up to
   * `(d + 1) * nrFiles - 1`; so the first directory holds only `nrFiles - 1`
   * files (1 to `nrFiles - 1`) and file `nrFiles` already goes to the second.
   */
  lemma DirectoryRange(fileNumber: nat, nrFiles: int, d: nat)
    requires nrFiles > 0
    ensures DirectoryIndex(fileNumber, nrFiles) == d + 1 <==> d * nrFiles <= fileNumber < (d + 1) * nrFiles
  {
    DirectoryIndexDiv(fileNumber, nrFiles);
    var q := fileNumber / nrFiles;
    assert q * nrFiles <= fileNumber < (q + 1) * nrFiles;
    if d < q {
      assert (d + 1) * nrFiles <= q * nrFiles;
    } else if d > q {
      assert (q + 1) * nrFiles <= d * nrFiles;
    }
  }

  /** The name of the directory of file `fileNumber`: `"000" + str(index)`. */
  function DirectoryName(fileNumber: int, nrFiles: int): string
    requires nrFiles != 0
  {
    "000" + IntToString(DirectoryIndex(fileNumber, nrFiles))
  }

  /** With the default of 100 files per directory, file 100 lands in `0002`, file 99 in `0001`. */
  lemma DefaultDirectoryBoundary()
    ensures DirectoryName(99, 100) == "0001"
    ensures DirectoryName(100, 100) == "0002"
  {
    DirectoryIndexDiv(99, 100);
    DirectoryIndexDiv(100, 100);
  }

  /** `'input' + str(filenumber) + '.txt'`. */
  function InputFileName(fileNumber: int): string
  {
    "input" + IntToString(fileNumber) + ".txt"
  }

  /** Distinct file numbers give distinct file names. */
  lemma InputFileNamesDistinct(f: int, g: int)
    requires f != g
    ensures InputFileName(f) != InputFileName(g)
  {
    var a, b := InputFileName(f), InputFileName(g);
    assert a[5..|a| - 4] == IntToString(f);
    assert b[5..|b| - 4] == IntToString(g);
    ParseIntToString(f);
    ParseIntToString(g);
  }

  /** The lines of each file, in file order. */
  function FileLines(files: seq<InputFile>): seq<seq<string>>
  {
    seq(|files|, k requires 0 <= k < |files| => files[k].lines)
  }

  /** The file written for the chunk numbered `fileNumber`. */
  function FileFor(fileNumber: int, nrFiles: int, chunk: seq<AssayRecord>): InputFile
    requires nrFiles != 0
  {
    InputFile(DirectoryName(fileNumber, nrFiles), InputFileName(fileNumber), ChunkLines(chunk))
  }

  /** The loop that writes one chunk, one line per row. */
  method WriteChunk(chunk: seq<AssayRecord>) returns (lines: seq<string>)
    ensures |lines| == |chunk|
    ensures forall k :: 0 <= k < |chunk| ==>
      lines[k] == "\"" + IntToString(chunk[k].id) + "\"|" + FixTypos(chunk[k].description) + "\n"
    ensures lines == ChunkLines(chunk)
  {
    lines := [];
    for j := 0 to |chunk|
      invariant |lines| == j
      invariant forall k :: 0 <= k < j ==> lines[k] == RecordLine(chunk[k])
    {
      lines := lines + [RecordLine(chunk[j])];
    }
  }

  /** The lines of the files, concatenated, are the lines of all the rows. */
  lemma FilesCoverRows(files: seq<InputFile>, nrAssays: nat, nrFiles: int, rows: seq<AssayRecord>)
    requires nrAssays > 0
    requires var chunks := Chunks(nrAssays, rows);
      && |files| == |chunks|
      && forall k :: 0 <= k < |chunks| ==> files[k].lines == ChunkLines(chunks[k])
    ensures Flatten(FileLines(files)) == ChunkLines(rows)
  {
    var chunks := Chunks(nrAssays, rows);
    assert FileLines(files) == seq(|chunks|, k requires 0 <= k < |chunks| => ChunkLines(chunks[k]));
    ChunkLinesFlatten(chunks);
    ChunksFlatten(nrAssays, rows);
  }

  /**
   * `make_input_files(path, db_result, nr_assays, nr_files)` without the file
   * system: the files it would write, in the order it writes them.
   */
  method MakeInputFiles(rows: seq<AssayRecord>, nrAssays: int, nrFiles: int)
    returns (result: Result<seq<InputFile>, WriteError>)
    ensures result.Failure? <==> nrAssays < 0 || (nrFiles == 0 && nrAssays > 0 && |rows| > 0)
    ensures result == Failure(NegativeChunkSize) <==> nrAssays < 0
    ensures result.Success? ==>
      var chunks := Chunks(nrAssays, rows);
      && |result.value| == |chunks|
      && forall k :: 0 <= k < |chunks| ==> result.value[k] == FileFor(k + 1, nrFiles, chunks[k])
    ensures result.Success? && nrAssays > 0 ==> Flatten(FileLines(result.value)) == ChunkLines(rows)
  {
    if nrAssays < 0 {
      return Failure(NegativeChunkSize);
    }
    var chunks := Grouper(nrAssays, rows);
    var files: seq<InputFile> := [];
    var fileNumber := 0;
    for i := 0 to |chunks|
      invariant fileNumber == i
      invariant |files| == i
      invariant i > 0 ==> nrFiles != 0
      invariant forall k :: 0 <= k < i ==> files[k] == FileFor(k + 1, nrFiles, chunks[k])
    {
      fileNumber := fileNumber + 1;
      if nrFiles == 0 {
        return Failure(ZeroFilesPerDirectory);
      }
      var directory := DirectoryName(fileNumber, nrFiles);
      var fileName := InputFileName(fileNumber);
      var lines := WriteChunk(chunks[i]);
      var file := InputFile(directory, fileName, lines);
      assert file == FileFor(fileNumber, nrFiles, chunks[i]);
      files := files + [file];
    }
    if nrAssays > 0 {
      FilesCoverRows(files, nrAssays, nrFiles, rows);
    }
    return Success(files);
  }
}
