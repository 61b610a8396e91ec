/**
 * The job arrays handed to the scheduler. `submit_job_array_for_inputdir`
 * submits one array whose index range runs from the smallest to the largest
 * input-file number found in a directory; `redo_failed_jobs` resubmits, as an
 * explicit index list, the output files smaller than 20000 bytes.
 */
module JobArrays {
  import opened Wrappers
  import opened Strings
  import opened Integers
  import ChunkWriter

  /**
   * Why nothing is submitted: a file name containing `input` whose index does
   * not convert with `int` (`ValueError`), or no input file at all (`min` of an
   * empty list).
   */
  datatype SubmitError = IndexNotInteger(name: string) | NoInputFiles

  /** `name.strip('.txt').strip('input')`: both arguments are sets of characters. */
  function InputIndexText(name: string): string
  {
    Strip(Strip(name, ".txt"), "input")
  }

  /** `int(InputIndexText(name))` does not raise for this name, or the name is not selected. */
  predicate IndexConverts(name: string)
  {
    !Contains(name, "input") || ParseInt(InputIndexText(name)).Some?
  }

  /**
   * `[int(InputIndexText(name)) for name in listing if 'input' in name]`; the
   * first name whose index does not convert raises.
   */
  function InputIndices(listing: seq<string>): (r: Result<seq<int>, SubmitError>)
    ensures r.Success? ==> |r.value| <= |listing|
    ensures r.Failure? ==> r.error.IndexNotInteger? && r.error.name in listing && !IndexConverts(r.error.name)
  {
    if listing == [] then Success([])
    else
      var name := listing[0];
      var rest := InputIndices(listing[1..]);
      if !Contains(name, "input") then rest
      else
        match ParseInt(InputIndexText(name))
        case None => Failure(IndexNotInteger(name))
        case Some(i) => if rest.Success? then Success([i] + rest.value) else rest
  }

  /** Every selected name of the listing has an index that converts. */
  predicate AllIndicesConvert(listing: seq<string>)
  {
    listing == [] || (IndexConverts(listing[0]) && AllIndicesConvert(listing[1..]))
  }

  lemma HeadFails(listing: seq<string>)
    requires listing != [] && !IndexConverts(listing[0])
    ensures InputIndices(listing).Failure?
  {
  }

  lemma HeadConverts(listing: seq<string>)
    requires listing != [] && IndexConverts(listing[0])
    ensures InputIndices(listing).Success? <==> InputIndices(listing[1..]).Success?
  {
  }

  /** The extraction succeeds exactly when every selected name's index converts. */
  lemma {:induction false} InputIndicesSucceeds(listing: seq<string>)
    ensures InputIndices(listing).Success? <==> AllIndicesConvert(listing)
  {
    if listing != [] {
      InputIndicesSucceeds(listing[1..]);
      if IndexConverts(listing[0]) {
        HeadConverts(listing);
      } else {
        HeadFails(listing);
      }
    }
  }

  /** The `[min-max]` range of the submitted array. */
  function SubmitRange(listing: seq<string>): (r: Result<(int, int), SubmitError>)
    ensures r.Success? <==> InputIndices(listing).Success? && |InputIndices(listing).value| > 0
    ensures r == Failure(NoInputFiles) <==> InputIndices(listing) == Success([])
    ensures r.Success? ==>
      var indices := InputIndices(listing).value;
      && r.value.0 in indices && r.value.1 in indices
      && forall i :: i in indices ==> r.value.0 <= i <= r.value.1
  {
    match InputIndices(listing)
    case Failure(e) => Failure(e)
    case Success(indices) =>
      if |indices| == 0 then Failure(NoInputFiles) else Success((SeqMin(indices), SeqMax(indices)))
  }

  /** `myArray[<spec>]%1`: the array name, with at most one member running at a time. */
  function JobArrayName(spec: string): string
  {
    "myArray[" + spec + "]%1"
  }

  /** The job name `submit_job_array_for_inputdir` passes to the scheduler. */
  function SubmitJobName(listing: seq<string>): Result<string, SubmitError>
  {
    match SubmitRange(listing)
    case Failure(e) => Failure(e)
    case Success(range) => Success(JobArrayName(IntToString(range.0) + "-" + IntToString(range.1)))
  }

  lemma StripTxt(digits: string)
    requires |digits| > 0 && AllDigits(digits)
    ensures Strip("input" + digits + ".txt", ".txt") == "input" + digits
  {
    assert IsDigit(digits[|digits| - 1]);
    assert forall i :: 0 <= i < 4 ==> ".txt"[i] in ".txt";
    var m := "input" + digits;
    assert m[0] !in ".txt" && m[|m| - 1] !in ".txt";
    StripAround([], m, ".txt", ".txt");
    assert [] + m + ".txt" == "input" + digits + ".txt";
  }

  lemma StripInput(digits: string)
    requires |digits| > 0 && AllDigits(digits)
    ensures Strip("input" + digits, "input") == digits
  {
    assert IsDigit(digits[0]) && IsDigit(digits[|digits| - 1]);
    assert forall i :: 0 <= i < 5 ==> "input"[i] in "input";
    StripAround("input", digits, [], "input");
    assert "input" + digits + [] == "input" + digits;
  }

  /** The index extracted from a written input file name is its file number. */
  lemma InputFileIndex(fileNumber: nat)
    ensures Contains(ChunkWriter.InputFileName(fileNumber), "input")
    ensures InputIndexText(ChunkWriter.InputFileName(fileNumber)) == NatToString(fileNumber)
    ensures ParseInt(InputIndexText(ChunkWriter.InputFileName(fileNumber))) == Some(fileNumber)
  {
    var name := ChunkWriter.InputFileName(fileNumber);
    var digits := NatToString(fileNumber);
    assert name == "input" + digits + ".txt";
    assert Contains(name, "input") by {
      assert "input" <= name;
    }
    assert InputIndexText(name) == digits by {
      StripTxt(digits);
      StripInput(digits);
    }
    assert ParseInt(digits) == Some(fileNumber) by {
      ParseDigits(digits);
      NatToStringValue(fileNumber);
    }
  }

  lemma HeadTail<T>(s: seq<T>)
    requires |s| > 0
    ensures s == [s[0]] + s[1..]
  {
  }

  /** `name` is selected and its index converts to `i`. */
  predicate IndexIs(name: string, i: int)
  {
    Contains(name, "input") && ParseInt(InputIndexText(name)) == Some(i)
  }

  lemma InputIndicesCons(name: string, rest: seq<string>, i: int, indices: seq<int>)
    requires IndexIs(name, i)
    requires InputIndices(rest) == Success(indices)
    ensures InputIndices([name] + rest) == Success([i] + indices)
  {
    assert ([name] + rest)[1..] == rest;
  }

  /** The names `make_input_files` gives to files with the numbers `numbers`, in that order. */
  function InputListing(numbers: seq<nat>): (r: seq<string>)
    ensures |r| == |numbers|
  {
    if |numbers| == 0 then [] else [ChunkWriter.InputFileName(numbers[0])] + InputListing(numbers[1..])
  }

  /** Each name of `listing` is selected and converts to the number at the same position. */
  predicate IndicesAre(listing: seq<string>, numbers: seq<int>)
  {
    |listing| == |numbers| && (listing == [] || (IndexIs(listing[0], numbers[0]) && IndicesAre(listing[1..], numbers[1..])))
  }

  lemma {:induction false} IndicesAreExtracted(listing: seq<string>, numbers: seq<int>)
    requires IndicesAre(listing, numbers)
    ensures InputIndices(listing) == Success(numbers)
  {
    if listing != [] {
      IndicesAreExtracted(listing[1..], numbers[1..]);
      InputIndicesCons(listing[0], listing[1..], numbers[0], numbers[1..]);
      HeadTail(listing);
      HeadTail(numbers);
    }
  }

  lemma {:induction false} InputListingIndicesAre(numbers: seq<nat>)
    ensures IndicesAre(InputListing(numbers), numbers)
  {
    if |numbers| > 0 {
      InputListingIndicesAre(numbers[1..]);
      var listing := InputListing(numbers);
      assert listing[1..] == InputListing(numbers[1..]);
      assert IndexIs(listing[0], numbers[0]) by {
        InputFileIndex(numbers[0]);
      }
    }
  }

  /** Extracting indices from written file names gives the file numbers back, in listing order. */
  lemma InputListingIndices(numbers: seq<nat>)
    ensures InputIndices(InputListing(numbers)) == Success(numbers)
  {
    InputListingIndicesAre(numbers);
    IndicesAreExtracted(InputListing(numbers), numbers);
  }

  /**
   * For a directory of written input files the array spans exactly the
   * smallest to the largest file number; an empty directory submits nothing.
   */
  lemma InputListingRange(numbers: seq<nat>)
    ensures |numbers| == 0 ==> SubmitRange(InputListing(numbers)) == Failure(NoInputFiles)
    ensures |numbers| > 0 ==> SubmitRange(InputListing(numbers)) == Success((SeqMin(numbers), SeqMax(numbers)))
  {
    InputListingIndices(numbers);
  }

  /** The spec `<lo>-<hi>` of two non-negative numbers splits on `-` into texts that `int` reads back. */
  lemma RangeSpecParses(lo: nat, hi: nat)
    ensures var parts := Split(IntToString(lo) + "-" + IntToString(hi), '-');
      |parts| == 2 && ParseInt(parts[0]) == Some(lo) && ParseInt(parts[1]) == Some(hi)
  {
    var a, b := IntToString(lo), IntToString(hi);
    assert '-' !in a && '-' !in b by {
      assert forall i :: 0 <= i < |a| ==> IsDigit(a[i]);
      assert forall i :: 0 <= i < |b| ==> IsDigit(b[i]);
    }
    assert Split(a + "-" + b, '-') == [a, b] by {
      SplitAfterPiece(a, '-', b);
      SplitNoSeparator(b, '-');
    }
    ParseIntToString(lo);
    ParseIntToString(hi);
  }

  /**
   * When the index range is non-negative, the submitted spec is `<min>-<max>`:
   * it splits on `-` into two pieces that `int` reads back as the ends of the
   * range. For written input files those are the smallest and the largest file
   * number (`InputListingRange`).
   */
  lemma SubmitSpecReadsBack(listing: seq<string>)
    requires SubmitRange(listing).Success? && SubmitRange(listing).value.0 >= 0
    ensures exists spec ::
      && SubmitJobName(listing) == Success(JobArrayName(spec))
      && |Split(spec, '-')| == 2
      && ParseInt(Split(spec, '-')[0]) == Some(SubmitRange(listing).value.0)
      && ParseInt(Split(spec, '-')[1]) == Some(SubmitRange(listing).value.1)
  {
    var range := SubmitRange(listing).value;
    assert range.0 <= range.1;
    var lo: nat, hi: nat := range.0, range.1;
    var spec := IntToString(lo) + "-" + IntToString(hi);
    assert SubmitJobName(listing) == Success(JobArrayName(spec));
    assert |Split(spec, '-')| == 2 && ParseInt(Split(spec, '-')[0]) == Some(lo) && ParseInt(Split(spec, '-')[1]) == Some(hi) by {
      RangeSpecParses(lo, hi);
    }
  }

  /** Output files below this size in bytes are taken to be failed jobs. */
  const FailedSizeLimit: int := 20000

  /** One directory entry of the output directory: its name and its size in bytes. */
  datatype Entry = Entry(name: string, size: nat)

  /** `name.strip('output')`: `output` is a set of characters. */
  function OutputIndexText(name: string): string
  {
    Strip(name, "output")
  }

  /** `[OutputIndexText(name) for name in listing if size < 20000]`. */
  function FailedNames(listing: seq<Entry>): (r: seq<string>)
    ensures |r| <= |listing|
    ensures r == [] <==> forall k :: 0 <= k < |listing| ==> listing[k].size >= FailedSizeLimit
  {
    if listing == [] then []
    else
      var rest := FailedNames(listing[1..]);
      assert forall k :: 1 <= k < |listing| ==> listing[k] == listing[1..][k - 1];
      (if listing[0].size < FailedSizeLimit then [OutputIndexText(listing[0].name)] else []) + rest
  }

  /**
   * The array spec `redo_failed_jobs` resubmits: the failed names joined by
   * `,`; `None` when no output file is too small and nothing is resubmitted.
   */
  function ResubmitJobName(listing: seq<Entry>): (r: Option<string>)
    ensures r.None? <==> forall k :: 0 <= k < |listing| ==> listing[k].size >= FailedSizeLimit
  {
    var failed := FailedNames(listing);
    if |failed| == 0 then None else Some(JobArrayName(Join(failed, ",")))
  }

  /** Reference definition: the indices of the entries below the size limit, in listing order. */
  function SmallIndices(listing: seq<Entry>, indices: seq<nat>): seq<nat>
    requires |listing| == |indices|
  {
    if |listing| == 0 then []
    else (if listing[0].size < FailedSizeLimit then [indices[0]] else []) + SmallIndices(listing[1..], indices[1..])
  }

  /** The decimal texts of some numbers. */
  function DecimalTexts(numbers: seq<nat>): seq<string>
  {
    if |numbers| == 0 then [] else [NatToString(numbers[0])] + DecimalTexts(numbers[1..])
  }

  /** Stripping `output` from `output<digits>` leaves the digits, leading zeros included. */
  lemma OutputIndex(digits: string)
    requires |digits| > 0 && AllDigits(digits)
    ensures OutputIndexText("output" + digits) == digits
  {
    assert IsDigit(digits[0]) && IsDigit(digits[|digits| - 1]);
    assert forall i :: 0 <= i < 6 ==> "output"[i] in "output";
    StripAround("output", digits, [], "output");
    assert "output" + digits + [] == "output" + digits;
  }

  lemma FailedNamesCons(entry: Entry, rest: seq<Entry>)
    ensures FailedNames([entry] + rest)
         == (if entry.size < FailedSizeLimit then [OutputIndexText(entry.name)] else []) + FailedNames(rest)
  {
    assert ([entry] + rest)[1..] == rest;
  }

  /** When each name strips to the decimal text of an index, the failed names are the small files' indices. */
  lemma {:induction false} FailedNamesAreIndices(listing: seq<Entry>, indices: seq<nat>)
    requires |listing| == |indices|
    requires forall k :: 0 <= k < |listing| ==> OutputIndexText(listing[k].name) == NatToString(indices[k])
    ensures FailedNames(listing) == DecimalTexts(SmallIndices(listing, indices))
  {
    if |listing| > 0 {
      FailedNamesAreIndices(listing[1..], indices[1..]);
      FailedNamesCons(listing[0], listing[1..]);
      assert [listing[0]] + listing[1..] == listing;
      var small := SmallIndices(listing[1..], indices[1..]);
      assert SmallIndices(listing, indices) == (if listing[0].size < FailedSizeLimit then [indices[0]] else []) + small;
      if listing[0].size < FailedSizeLimit {
        assert ([indices[0]] + small)[1..] == small;
        assert DecimalTexts([indices[0]] + small) == [NatToString(indices[0])] + DecimalTexts(small);
      } else {
        assert [] + small == small;
      }
    }
  }

  lemma {:induction false} DecimalTextsConvert(numbers: seq<nat>)
    ensures |DecimalTexts(numbers)| == |numbers|
    ensures forall k :: 0 <= k < |numbers| ==>
      ',' !in DecimalTexts(numbers)[k] && ParseInt(DecimalTexts(numbers)[k]) == Some(numbers[k])
  {
    if |numbers| > 0 {
      DecimalTextsConvert(numbers[1..]);
      var digits := NatToString(numbers[0]);
      assert AllDigits(digits);
      ParseDigits(digits);
      NatToStringValue(numbers[0]);
    }
  }

  /**
   * On a directory of output files `output<index>`, `redo_failed_jobs`
   * resubmits exactly the small files: nothing when there is none, otherwise
   * a spec that splits on `,` into pieces that convert back to the small
   * files' indices, in listing order.
   */
  lemma ResubmitsExactlySmall(listing: seq<Entry>, indices: seq<nat>)
    requires |listing| == |indices|
    requires forall k :: 0 <= k < |listing| ==> listing[k].name == "output" + NatToString(indices[k])
    ensures var small := SmallIndices(listing, indices);
      && (ResubmitJobName(listing).None? <==> small == [])
      && (small != [] ==>
            exists spec ::
              && ResubmitJobName(listing) == Some(JobArrayName(spec))
              && |Split(spec, ',')| == |small|
              && forall k :: 0 <= k < |small| ==> ParseInt(Split(spec, ',')[k]) == Some(small[k]))
  {
    forall k | 0 <= k < |listing|
      ensures OutputIndexText(listing[k].name) == NatToString(indices[k])
    {
      OutputIndex(NatToString(indices[k]));
    }
    FailedNamesAreIndices(listing, indices);
    var small := SmallIndices(listing, indices);
    var failed := FailedNames(listing);
    DecimalTextsConvert(small);
    if small != [] {
      JoinSplit(failed, ',');
      assert ResubmitJobName(listing) == Some(JobArrayName(Join(failed, ",")));
    }
  }
}
