/**
 * `insert_results_into_oracle`: every line of every output file of the
 * indexer becomes at most one row of the annotation table. A line holding
 * `||||` is an assay without suggested terms; any other line is split on `|`
 * into the fields of one suggested term.
 *
 * The Python function keeps its field values in local variables that live
 * across lines and files. A line too short for every field leaves the
 * variables it does not reach holding the previous line's values, and the
 * insert still happens with them; a variable that was never assigned makes
 * the insert raise and ends the whole run. `Locals` models those variables.
 */
module ResultIngestor {
  import opened Wrappers
  import opened Strings
  import opened Integers

  /** One inserted row of the annotation table. */
  datatype Row =
    | NoTerms(quotedId: string, descriptorUi: string, comments: string)
    | Term(assayId: int, descriptorUi: string, descriptorText: string, umlsId: string,
           score: string, termType: string, misc: string, paths: string)

  /** Why the run stops: an exception that no handler catches. */
  datatype IngestError =
    | QuoteMissing(line: string)      // `line.split('"')[1]` on a no-terms line without `"`
    | UnboundLocal(line: string)      // the insert reads a variable never assigned

  /** What one line does. */
  datatype Outcome = Inserted(row: Row) | Skipped | Aborted(error: IngestError)

  /** The field variables of the loop; `None` is a variable not yet assigned. */
  datatype Locals = Locals(
    descriptorText: Option<string>, umlsId: Option<string>, score: Option<string>,
    termType: Option<string>, misc: Option<string>, paths: Option<string>,
    descriptorUi: Option<string>)
  {
    predicate Bound()
    {
      && descriptorText.Some? && umlsId.Some? && score.Some? && termType.Some?
      && misc.Some? && paths.Some? && descriptorUi.Some?
    }
  }

  /** The variables before the first line. */
  const Unassigned := Locals(None, None, None, None, None, None, None)

  const NoTermsLine := "||||"
  const NotApplicable := "not applicable"
  const NoTermsComment := "no terms suggested"

  /** Doubling every single quote, so the text can sit inside an SQL string literal. */
  function Escape(s: string): string
  {
    Replace(s, "'", "''")
  }

  /** Un-doubling the quotes gives the text back: the escaping loses nothing. */
  lemma {:induction false} EscapeRoundTrip(s: string)
    ensures Replace(Escape(s), "''", "'") == s
    decreases |s|
  {
    if |s| > 0 {
      EscapeRoundTrip(s[1..]);
      var tail := Escape(s[1..]);
      if s[0] == '\'' {
        assert "'" <= s;
        assert Escape(s) == "''" + tail;
        assert ("''" + tail)[2..] == tail;
      } else {
        assert !("'" <= s);
        assert Escape(s) == [s[0]] + tail;
        assert !("''" <= [s[0]] + tail);
        assert ([s[0]] + tail)[1..] == tail;
      }
      assert [s[0]] + s[1..] == s;
    }
  }

  /**
   * The field assignments of one split line, in source order: field 1 is the
   * descriptor text without `*`, 2 the UMLS id, 3 the score, 4 the term type,
   * 5 the explanation, 7 the paths and 8 the descriptor id without a line
   * break; field 6 is never read. The first missing field raises `IndexError`,
   * which leaves it and every later variable as they were.
   */
  function Extract(fields: seq<string>, locals: Locals): (r: Locals)
    ensures |fields| > 8 ==> r.Bound()
  {
    Locals(
      if |fields| > 1 then Some(Escape(Strip(fields[1], "*"))) else locals.descriptorText,
      if |fields| > 2 then Some(fields[2]) else locals.umlsId,
      if |fields| > 3 then Some(fields[3]) else locals.score,
      if |fields| > 4 then Some(Escape(fields[4])) else locals.termType,
      if |fields| > 5 then Some(Escape(fields[5])) else locals.misc,
      if |fields| > 7 then Some(Escape(fields[7])) else locals.paths,
      if |fields| > 8 then Some(Strip(fields[8], "\n")) else locals.descriptorUi)
  }

  /** The assay id of a term line: the first field without its quotes, through `int`. */
  function LineId(fields: seq<string>): Option<int>
    requires |fields| >= 1
  {
    ParseInt(Strip(fields[0], "\""))
  }

  /** A no-terms line: the assay id is the text between the first two `"`. */
  function NoTermsStep(line: string): Outcome
  {
    var pieces := Split(line, '"');
    if |pieces| < 2 then Aborted(QuoteMissing(line))
    else Inserted(NoTerms(pieces[1], NotApplicable, NoTermsComment))
  }

  /** A term line, split on `|` into `fields`. */
  function TermStep(line: string, fields: seq<string>, locals: Locals): (Outcome, Locals)
    requires |fields| >= 1
  {
    match LineId(fields)
    case None => (Skipped, locals)
    case Some(id) =>
      var next := Extract(fields, locals);
      if next.Bound() then
        (Inserted(Term(id, next.descriptorUi.value, next.descriptorText.value, next.umlsId.value,
                       next.score.value, next.termType.value, next.misc.value, next.paths.value)), next)
      else (Aborted(UnboundLocal(line)), next)
  }

  /** One pass of the line loop: what the line does and the variables after it. */
  function Step(line: string, locals: Locals): (Outcome, Locals)
  {
    if Contains(line, NoTermsLine) then (NoTermsStep(line), locals)
    else TermStep(line, Split(line, '|'), locals)
  }

  /** A no-terms line inserts exactly when it holds a `"`, and never changes the variables. */
  lemma NoTermsQuote(line: string, locals: Locals)
    requires Contains(line, NoTermsLine)
    ensures Step(line, locals).1 == locals
    ensures Step(line, locals).0.Aborted? <==> '"' !in line
    ensures '"' !in line ==> Step(line, locals).0 == Aborted(QuoteMissing(line))
  {
    if '"' in line {
      SplitHasSeparator(line, '"');
    } else {
      SplitNoSeparator(line, '"');
    }
  }

  /** The assay id of a no-terms line is the text between its first two quotes. */
  lemma NoTermsId(before: string, id: string, after: string, locals: Locals)
    requires '"' !in before && '"' !in id
    requires Contains(before + "\"" + id + "\"" + after, NoTermsLine)
    ensures Step(before + "\"" + id + "\"" + after, locals)
         == (Inserted(NoTerms(id, NotApplicable, NoTermsComment)), locals)
  {
    var line := before + "\"" + id + "\"" + after;
    SplitAfterPiece(id, '"', after);
    SplitAfterPiece(before, '"', id + "\"" + after);
    assert line == before + ['"'] + (id + ['"'] + after);
  }

  /** A line whose first field is not an integer inserts nothing and changes nothing. */
  lemma NonIntegerIdSkipped(line: string, locals: Locals)
    requires !Contains(line, NoTermsLine)
    requires LineId(Split(line, '|')) == None
    ensures Step(line, locals) == (Skipped, locals)
  {
  }

  /**
   * A line with all nine fields inserts one term row that depends on that line
   * alone, whatever earlier lines left in the variables.
   */
  lemma FullLineIgnoresLocals(line: string, a: Locals, b: Locals)
    requires !Contains(line, NoTermsLine)
    requires |Split(line, '|')| > 8
    ensures Step(line, a).0 == Step(line, b).0
    ensures !Step(line, a).0.Aborted?
  {
    var fields := Split(line, '|');
    assert Extract(fields, a) == Extract(fields, b);
  }

  lemma IdField(id: int)
    ensures Strip("\"" + IntToString(id) + "\"", "\"") == IntToString(id)
    ensures ParseInt(IntToString(id)) == Some(id)
  {
    var t := IntToString(id);
    assert t[0] == '-' || IsDigit(t[0]);
    assert IsDigit(t[|t| - 1]);
    StripAround("\"", t, "\"", "\"");
    ParseIntToString(id);
  }

  lemma UiField(ui: string)
    requires ui == [] || (ui[0] != '\n' && ui[|ui| - 1] != '\n')
    ensures Strip(ui + "\n", "\n") == ui
  {
    StripAround([], ui, "\n", "\n");
    assert [] + ui + "\n" == ui + "\n";
  }

  /**
   * A line with all nine fields and an integer id inserts the term those
   * fields describe: the descriptor text without `*`, quotes doubled where
   * the table needs them, and the descriptor id without the line break.
   */
  lemma FullLineRow(line: string, fields: seq<string>, id: int, locals: Locals)
    requires !Contains(line, NoTermsLine)
    requires fields == Split(line, '|')
    requires |fields| > 8 && LineId(fields) == Some(id)
    ensures Step(line, locals).0
      == Inserted(Term(id, Strip(fields[8], "\n"), Escape(Strip(fields[1], "*")), fields[2], fields[3],
                       Escape(fields[4]), Escape(fields[5]), Escape(fields[7])))
  {
  }

  /** The fields of a line as the indexer writes it: nine parts joined by `|`, the quoted assay id first. */
  function TermLine(id: int, text: string, umls: string, score: string, termType: string,
                    misc: string, unused: string, paths: string, ui: string): string
  {
    Join(["\"" + IntToString(id) + "\"", text, umls, score, termType, misc, unused, paths, ui + "\n"], "|")
  }

  lemma TermLineSplit(id: int, text: string, umls: string, score: string, termType: string,
                      misc: string, unused: string, paths: string, ui: string)
    requires '|' !in text && '|' !in umls && '|' !in score && '|' !in termType
    requires '|' !in misc && '|' !in unused && '|' !in paths && '|' !in ui
    ensures Split(TermLine(id, text, umls, score, termType, misc, unused, paths, ui), '|')
         == ["\"" + IntToString(id) + "\"", text, umls, score, termType, misc, unused, paths, ui + "\n"]
  {
    var first := "\"" + IntToString(id) + "\"";
    var parts := [first, text, umls, score, termType, misc, unused, paths, ui + "\n"];
    assert '|' !in IntToString(id) by {
      var t := IntToString(id);
      assert forall i :: 0 <= i < |t| ==> t[i] == '-' || IsDigit(t[i]);
    }
    assert '|' !in ui + "\n";
    JoinSplit(parts, '|');
  }

  lemma NineFieldsParsed(line: string, fields: seq<string>, id: int, text: string, umls: string, score: string,
                         termType: string, misc: string, unused: string, paths: string, ui: string, locals: Locals)
    requires ui == [] || (ui[0] != '\n' && ui[|ui| - 1] != '\n')
    requires fields == ["\"" + IntToString(id) + "\"", text, umls, score, termType, misc, unused, paths, ui + "\n"]
    ensures TermStep(line, fields, locals).0
         == Inserted(Term(id, ui, Escape(Strip(text, "*")), umls, score, Escape(termType), Escape(misc), Escape(paths)))
  {
    assert LineId(fields) == Some(id) by {
      IdField(id);
    }
    assert Strip(fields[8], "\n") == ui by {
      UiField(ui);
    }
    assert Extract(fields, locals).Bound();
  }

  /**
   * A term line as the indexer writes it is parsed back into its fields,
   * whatever earlier lines left in the variables.
   */
  lemma TermLineParsed(id: int, text: string, umls: string, score: string, termType: string,
                       misc: string, unused: string, paths: string, ui: string, locals: Locals)
    requires '|' !in text && '|' !in umls && '|' !in score && '|' !in termType
    requires '|' !in misc && '|' !in unused && '|' !in paths && '|' !in ui
    requires ui == [] || (ui[0] != '\n' && ui[|ui| - 1] != '\n')
    requires !Contains(TermLine(id, text, umls, score, termType, misc, unused, paths, ui), NoTermsLine)
    ensures Step(TermLine(id, text, umls, score, termType, misc, unused, paths, ui), locals).0
         == Inserted(Term(id, ui, Escape(Strip(text, "*")), umls, score, Escape(termType), Escape(misc), Escape(paths)))
  {
    TermLineSplit(id, text, umls, score, termType, misc, unused, paths, ui);
    var line := TermLine(id, text, umls, score, termType, misc, unused, paths, ui);
    NineFieldsParsed(line, Split(line, '|'), id, text, umls, score, termType, misc, unused, paths, ui, locals);
  }

  /**
   * A line with an integer id but fewer than nine fields keeps the previous
   * line's descriptor id and inserts with it when every variable was
   * assigned before.
   */
  lemma ShortLineReusesValues(line: string, id: int, locals: Locals)
    requires !Contains(line, NoTermsLine)
    requires LineId(Split(line, '|')) == Some(id)
    requires |Split(line, '|')| <= 8
    requires locals.Bound()
    ensures Step(line, locals).1.descriptorUi == locals.descriptorUi
    ensures Step(line, locals).0.Inserted?
    ensures Step(line, locals).0.row.assayId == id
    ensures Step(line, locals).0.row.descriptorUi == locals.descriptorUi.value
  {
    var next := Extract(Split(line, '|'), locals);
    assert next.descriptorUi == locals.descriptorUi;
    assert next.Bound();
  }

  /** Such a line as the first line of the run ends it: the descriptor id was never assigned. */
  lemma ShortFirstLineAborts(line: string, id: int)
    requires !Contains(line, NoTermsLine)
    requires LineId(Split(line, '|')) == Some(id)
    requires |Split(line, '|')| <= 8
    ensures Step(line, Unassigned).0 == Aborted(UnboundLocal(line))
  {
    var next := Extract(Split(line, '|'), Unassigned);
    assert next.descriptorUi == None;
  }

  /** The table rows written so far, the variables, and the exception that stopped the run, if any. */
  datatype Ingest = Ingest(rows: seq<Row>, locals: Locals, error: Option<IngestError>)

  /** The next line, unless an exception already ended the run. */
  function Apply(state: Ingest, line: string): (r: Ingest)
    ensures state.error.Some? ==> r == state
    ensures state.rows <= r.rows && |r.rows| <= |state.rows| + 1
  {
    if state.error.Some? then state
    else
      var (outcome, next) := Step(line, state.locals);
      match outcome
      case Inserted(row) => Ingest(state.rows + [row], next, None)
      case Skipped => Ingest(state.rows, next, None)
      case Aborted(e) => Ingest(state.rows, next, Some(e))
  }

  /** The line loop over `lines`, from the state `start`. */
  function RunFrom(start: Ingest, lines: seq<string>): Ingest
  {
    if |lines| == 0 then start
    else Apply(RunFrom(start, lines[..|lines| - 1]), lines[|lines| - 1])
  }

  /** The state before the first line of the first file. */
  const Start := Ingest([], Unassigned, None)

  /** The whole run over a sequence of lines, from fresh variables. */
  function Run(lines: seq<string>): Ingest
  {
    RunFrom(Start, lines)
  }

  lemma AppendLast<T>(a: seq<T>, b: seq<T>)
    requires |b| > 0
    ensures a + b == (a + b[..|b| - 1]) + [b[|b| - 1]]
  {
    assert b == b[..|b| - 1] + [b[|b| - 1]];
  }

  lemma TakeNext<T>(s: seq<T>, j: int)
    requires 0 <= j < |s|
    ensures s[..j + 1] == s[..j] + [s[j]]
  {
  }

  lemma TakeDrop<T>(s: seq<T>, j: int)
    requires 0 <= j <= |s|
    ensures s[..j] + s[j..] == s
  {
  }

  lemma RunFromSnoc(start: Ingest, lines: seq<string>, line: string)
    ensures RunFrom(start, lines + [line]) == Apply(RunFrom(start, lines), line)
  {
    assert (lines + [line])[..|lines|] == lines;
  }

  /** Running two stretches of lines one after the other is running them together. */
  lemma {:induction false} RunFromAppend(start: Ingest, lines: seq<string>, more: seq<string>)
    ensures RunFrom(start, lines + more) == RunFrom(RunFrom(start, lines), more)
    decreases |more|
  {
    if |more| > 0 {
      var init := more[..|more| - 1];
      RunFromAppend(start, lines, init);
      AppendLast(lines, more);
      RunFromSnoc(start, lines + init, more[|more| - 1]);
    } else {
      assert lines + more == lines;
    }
  }

  /** After an uncaught exception nothing further happens. */
  lemma {:induction false} RunFromAbsorbs(start: Ingest, lines: seq<string>)
    requires start.error.Some?
    ensures RunFrom(start, lines) == start
    decreases |lines|
  {
    if |lines| > 0 {
      RunFromAbsorbs(start, lines[..|lines| - 1]);
    }
  }

  /** Rows once inserted stay, in order, and every line inserts at most one row. */
  lemma {:induction false} RunFromRows(start: Ingest, lines: seq<string>)
    ensures start.rows <= RunFrom(start, lines).rows
    ensures |RunFrom(start, lines).rows| <= |start.rows| + |lines|
    decreases |lines|
  {
    if |lines| > 0 {
      RunFromRows(start, lines[..|lines| - 1]);
    }
  }

  /** Every line inserts at most one row. */
  lemma RunRowsBound(lines: seq<string>)
    ensures |Run(lines).rows| <= |lines|
  {
    RunFromRows(Start, lines);
  }

  /** Rows inserted by earlier lines are never taken back or reordered by later ones. */
  lemma RunRowsGrow(lines: seq<string>, more: seq<string>)
    ensures Run(lines).rows <= Run(lines + more).rows
  {
    RunFromAppend(Start, lines, more);
    RunFromRows(Run(lines), more);
  }

  /** An uncaught exception ends the run: later lines change nothing. */
  lemma RunAbsorbs(lines: seq<string>, more: seq<string>)
    requires Run(lines).error.Some?
    ensures Run(lines + more) == Run(lines)
  {
    RunFromAppend(Start, lines, more);
    RunFromAbsorbs(Run(lines), more);
  }

  /** A line whose outcome does not depend on the variables and never aborts. */
  predicate SelfContained(line: string)
  {
    if Contains(line, NoTermsLine) then '"' in line
    else LineId(Split(line, '|')).None? || |Split(line, '|')| > 8
  }

  /** Reference definition: the rows the lines yield each on its own, in order. */
  function LineRows(lines: seq<string>): seq<Row>
  {
    if |lines| == 0 then []
    else
      var outcome := Step(lines[|lines| - 1], Unassigned).0;
      LineRows(lines[..|lines| - 1]) + (if outcome.Inserted? then [outcome.row] else [])
  }

  lemma SelfContainedStep(line: string, locals: Locals)
    requires SelfContained(line)
    ensures Step(line, locals).0 == Step(line, Unassigned).0
    ensures !Step(line, locals).0.Aborted?
  {
    if Contains(line, NoTermsLine) {
      NoTermsQuote(line, locals);
      NoTermsQuote(line, Unassigned);
    } else if |Split(line, '|')| > 8 {
      FullLineIgnoresLocals(line, locals, Unassigned);
    }
  }

  /**
   * When every line is self-contained the run never stops early and its rows
   * are the rows of the lines taken one at a time, in order.
   */
  lemma {:induction false} RunSelfContained(lines: seq<string>)
    requires forall k :: 0 <= k < |lines| ==> SelfContained(lines[k])
    ensures Run(lines).error == None
    ensures Run(lines).rows == LineRows(lines)
  {
    if |lines| > 0 {
      var init := lines[..|lines| - 1];
      assert forall k :: 0 <= k < |init| ==> init[k] == lines[k];
      RunSelfContained(init);
      SelfContainedStep(lines[|lines| - 1], Run(init).locals);
    }
  }

  /** One output file of the indexer: its directory entry name and its lines as `readlines` gives them. */
  datatype OutputFile = OutputFile(name: string, lines: seq<string>)

  /** The files the loop reads: those whose name contains `output`. */
  predicate Selected(file: OutputFile)
  {
    Contains(file.name, "output")
  }

  /** The lines of the selected files, file after file, in listing order. */
  function OutputLines(files: seq<OutputFile>): seq<string>
  {
    if |files| == 0 then []
    else
      var last := files[|files| - 1];
      OutputLines(files[..|files| - 1]) + (if Selected(last) then last.lines else [])
  }

  lemma OutputLinesSnoc(files: seq<OutputFile>, file: OutputFile)
    ensures OutputLines(files + [file]) == OutputLines(files) + (if Selected(file) then file.lines else [])
  {
    assert (files + [file])[..|files|] == files;
  }

  /**
   * The lines of one output file, in order, from the given state: the rows
   * inserted so far, the variables after the last line, and the exception
   * that ended the run, if one did.
   */
  method IngestLines(lines: seq<string>, rows0: seq<Row>, locals0: Locals)
    returns (rows: seq<Row>, locals: Locals, error: Option<IngestError>)
    ensures Ingest(rows, locals, error) == RunFrom(Ingest(rows0, locals0, None), lines)
  {
    rows, locals := rows0, locals0;
    var j := 0;
    while j < |lines|
      invariant 0 <= j <= |lines|
      invariant Ingest(rows, locals, None) == RunFrom(Ingest(rows0, locals0, None), lines[..j])
    {
      var line := lines[j];
      RunFromSnoc(Ingest(rows0, locals0, None), lines[..j], line);
      TakeNext(lines, j);
      var (outcome, next) := Step(line, locals);
      match outcome {
        case Inserted(row) =>
          rows, locals := rows + [row], next;
        case Skipped =>
          locals := next;
        case Aborted(e) =>
          locals, error := next, Some(e);
          RunFromAppend(Ingest(rows0, locals0, None), lines[..j + 1], lines[j + 1..]);
          RunFromAbsorbs(Ingest(rows, locals, error), lines[j + 1..]);
          TakeDrop(lines, j + 1);
          return;
      }
      j := j + 1;
    }
    assert lines[..j] == lines;
    error := None;
  }

  /**
   * `insert_results_into_oracle` over a directory listing: the rows inserted,
   * in order, and the exception that ended the run early, if one did.
   */
  method IngestOutputFiles(files: seq<OutputFile>) returns (rows: seq<Row>, error: Option<IngestError>)
    ensures rows == Run(OutputLines(files)).rows
    ensures error == Run(OutputLines(files)).error
  {
    rows := [];
    var locals := Unassigned;
    var i := 0;
    while i < |files|
      invariant 0 <= i <= |files|
      invariant Ingest(rows, locals, None) == Run(OutputLines(files[..i]))
    {
      var file := files[i];
      assert files[..i + 1] == files[..i] + [file];
      OutputLinesSnoc(files[..i], file);
      if Selected(file) {
        RunFromAppend(Start, OutputLines(files[..i]), file.lines);
        rows, locals, error := IngestLines(file.lines, rows, locals);
        if error.Some? {
          var done := OutputLines(files[..i + 1]);
          assert files == files[..i + 1] + files[i + 1..];
          OutputLinesAppend(files[..i + 1], files[i + 1..]);
          RunAbsorbs(done, OutputLines(files[i + 1..]));
          return;
        }
        assert Ingest(rows, locals, None) == Run(OutputLines(files[..i]) + file.lines);
      } else {
        assert OutputLines(files[..i]) + [] == OutputLines(files[..i]);
      }
      i := i + 1;
    }
    assert files[..i] == files;
    error := None;
  }

  lemma {:induction false} OutputLinesAppend(files: seq<OutputFile>, more: seq<OutputFile>)
    ensures OutputLines(files + more) == OutputLines(files) + OutputLines(more)
    decreases |more|
  {
    if |more| > 0 {
      var init := more[..|more| - 1];
      var last := more[|more| - 1];
      OutputLinesAppend(files, init);
      AppendLast(files, more);
      OutputLinesSnoc(files + init, last);
      OutputLinesSnoc(init, last);
      assert init + [last] == more;
    } else {
      assert files + more == files;
    }
  }
}
