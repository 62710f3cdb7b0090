/** `extractDataFromPDF` and `batchProcessPDFs` of `pdfProcessor.js`: one
    file's outcome, and the aggregation of many files' outcomes into a
    deduplicated item list and a summary.

    Reading a PDF is not modelled: a file carries the outcome of reading it,
    either the text of its pages or the message of the error the reader
    raised (including the load timeout). */
module Batch {
  import opened Wrappers
  import opened JsString
  import opened Dedup
  import opened Extraction

  /** The MIME type a file must have. */
  const PdfMime := "application/pdf"

  /** What reading the pages of a file gave. */
  datatype Reading = TextRead(fullText: string) | ReadFailed(reason: string)

  /** A selected file: its name, its MIME type and what reading it gives. */
  datatype PdfFile = PdfFile(name: string, mimeType: string, reading: Reading)

  /** `extractDataFromPDF(file, options)`: the items of one file or the message
      of the error it throws. `None` is a missing file. The text is parsed
      in basic mode with no extra patterns, because only `pageTexts` is
      passed on to `parseTextForItems`. */
  function ExtractDataFromPDF(file: Option<PdfFile>, exec: (Regex, string) -> seq<Match>): Result<seq<Item>, string>
  {
    if file.None? then Failure("No file provided")
    else if file.value.mimeType != PdfMime then Failure("File must be a PDF")
    else match file.value.reading
      case ReadFailed(reason) => Failure("PDF processing failed: " + reason)
      case TextRead(fullText) =>
        if Trim(fullText) == [] then Failure("PDF processing failed: No text content found in PDF")
        else
          Success(ParsedItems(Some(fullText), false, [], exec))
  }

  /** The error each guard raises, and the items otherwise: a missing file,
      a file of another type, a failed read, and a text with nothing but
      white space are errors; any other text is parsed. */
  lemma ExtractOutcome(file: Option<PdfFile>, exec: (Regex, string) -> seq<Match>)
    ensures var r := ExtractDataFromPDF(file, exec);
      && (file.None? ==> r == Failure("No file provided"))
      && (file.Some? && file.value.mimeType != PdfMime ==> r == Failure("File must be a PDF"))
      && (file.Some? && file.value.mimeType == PdfMime && file.value.reading.ReadFailed? ==>
            r == Failure("PDF processing failed: " + file.value.reading.reason))
    ensures var r := ExtractDataFromPDF(file, exec);
      file.Some? && file.value.mimeType == PdfMime && file.value.reading.TextRead? ==>
        var text := file.value.reading.fullText;
        && ((forall i :: 0 <= i < |text| ==> IsSpace(text[i])) <==> r.Failure?)
        && (r.Failure? ==> r.error == "PDF processing failed: No text content found in PDF")
        && (r.Success? ==> r.value == ParsedItems(Some(text), false, [], exec))
  {
    if file.Some? && file.value.reading.TextRead? {
      TrimEmpty(file.value.reading.fullText);
    }
  }

  /** The items of a file are valid in basic mode and no two share a default key. */
  lemma ExtractedItemsValid(file: Option<PdfFile>, exec: (Regex, string) -> seq<Match>)
    ensures var r := ExtractDataFromPDF(file, exec);
      r.Success? ==>
        && (forall i :: 0 <= i < |r.value| ==> ValidateItem(Some(r.value[i]), false))
        && DistinctKeys(r.value, KeyFn(DefaultDedup))
  {
    if file.Some? && file.value.reading.TextRead? {
      ParsedItemsProperties(Some(file.value.reading.fullText), false, [], exec);
    }
  }

  /** What one file of a batch came to: its name and its items or error message. */
  datatype FileResult = FileResult(file: string, outcome: Result<seq<Item>, string>)

  /** An entry of `errors`. */
  datatype FileError = FileError(file: string, error: string)

  /** The argument of one `onProgress` call. */
  datatype ProgressEvent = ProgressEvent(completed: nat, total: nat, currentFile: string, itemsFound: nat)

  datatype Summary = Summary(totalFiles: nat, successfulFiles: nat, failedFiles: nat,
                             totalItemsFound: nat, uniqueItemsFound: nat)

  /** The object `batchProcessPDFs` resolves to. */
  datatype BatchResult = BatchResult(items: seq<Item>, processedFiles: nat, errors: seq<FileError>, summary: Summary)

  /** The result of processing one file. */
  function Outcome(f: PdfFile, exec: (Regex, string) -> seq<Match>): FileResult {
    FileResult(f.name, ExtractDataFromPDF(Some(f), exec))
  }

  /** The results of the files, in submission order. */
  function Outcomes(files: seq<PdfFile>, exec: (Regex, string) -> seq<Match>): (r: seq<FileResult>)
    ensures |r| == |files|
    ensures forall i :: 0 <= i < |files| ==> r[i] == Outcome(files[i], exec)
  {
    if files == [] then []
    else Outcomes(files[..|files| - 1], exec) + [Outcome(files[|files| - 1], exec)]
  }

  /** `results.filter(r => r.success).flatMap(r => r.items)`. */
  function SuccessItems(rs: seq<FileResult>): seq<Item> {
    if rs == [] then []
    else
      var last := rs[|rs| - 1];
      SuccessItems(rs[..|rs| - 1]) + (if last.outcome.Success? then last.outcome.value else [])
  }

  /** `results.filter(r => r.success).length`. */
  function SuccessCount(rs: seq<FileResult>): nat {
    if rs == [] then 0
    else SuccessCount(rs[..|rs| - 1]) + (if rs[|rs| - 1].outcome.Success? then 1 else 0)
  }

  /** The `errors` entries pushed for the failed files. */
  function ErrorsOf(rs: seq<FileResult>): seq<FileError> {
    if rs == [] then []
    else
      var last := rs[|rs| - 1];
      ErrorsOf(rs[..|rs| - 1]) + (if last.outcome.Failure? then [FileError(last.file, last.outcome.error)] else [])
  }

  /** The `onProgress` calls made for the successful files; the `k`-th file
      (from 1) reports `completed: k`. */
  function ProgressOf(rs: seq<FileResult>, total: nat): seq<ProgressEvent> {
    if rs == [] then []
    else
      var last := rs[|rs| - 1];
      ProgressOf(rs[..|rs| - 1], total) +
        (if last.outcome.Success? then [ProgressEvent(|rs|, total, last.file, |last.outcome.value|)] else [])
  }

  /** Every file either succeeds or adds one error: the two counts add up. */
  lemma {:induction false} CountsAddUp(rs: seq<FileResult>)
    ensures SuccessCount(rs) + |ErrorsOf(rs)| == |rs|
    decreases |rs|
  {
    if rs != [] {
      CountsAddUp(rs[..|rs| - 1]);
    }
  }

  /** Each error names a file that failed, with its message, and errors come in
      file order. */
  lemma {:induction false} ErrorsAreFailures(rs: seq<FileResult>)
    ensures forall k :: 0 <= k < |ErrorsOf(rs)| ==>
      exists i :: 0 <= i < |rs| && rs[i].outcome == Failure(ErrorsOf(rs)[k].error) && rs[i].file == ErrorsOf(rs)[k].file
    decreases |rs|
  {
    if rs == [] {
      assert |ErrorsOf(rs)| == 0;
    } else {
      var init := rs[..|rs| - 1];
      ErrorsAreFailures(init);
      var es := ErrorsOf(rs);
      forall k | 0 <= k < |ErrorsOf(rs)|
        ensures exists i :: 0 <= i < |rs| && rs[i].outcome == Failure(ErrorsOf(rs)[k].error) && rs[i].file == ErrorsOf(rs)[k].file
      {
        if k < |ErrorsOf(init)| {
          assert es[k] == ErrorsOf(init)[k];
          var i :| 0 <= i < |init| && init[i].outcome == Failure(ErrorsOf(init)[k].error) && init[i].file == ErrorsOf(init)[k].file;
          assert rs[i] == init[i];
        } else {
          var i := |rs| - 1;
          assert es[k] == FileError(rs[i].file, rs[i].outcome.error);
          assert rs[i].outcome == Failure(es[k].error) && rs[i].file == es[k].file;
        }
      }
    }
  }

  /** Progress reports count up strictly, stay within `1..|rs|`, and each
      names a file that succeeded with the number of items it gave. */
  lemma {:induction false} ProgressCountsUp(rs: seq<FileResult>, total: nat)
    ensures var ps := ProgressOf(rs, total);
      && |ps| == SuccessCount(rs)
      && (forall k :: 0 <= k < |ps| ==>
            && 1 <= ps[k].completed <= |rs| && ps[k].total == total
            && rs[ps[k].completed - 1].outcome.Success?
            && ps[k].currentFile == rs[ps[k].completed - 1].file
            && ps[k].itemsFound == |rs[ps[k].completed - 1].outcome.value|)
      && (forall k, l :: 0 <= k < l < |ps| ==> ps[k].completed < ps[l].completed)
    decreases |rs|
  {
    if rs != [] {
      var init := rs[..|rs| - 1];
      ProgressCountsUp(init, total);
      var ps := ProgressOf(rs, total);
      var pi := ProgressOf(init, total);
      forall k | 0 <= k < |ps|
        ensures 1 <= ps[k].completed <= |rs| && ps[k].total == total
        ensures rs[ps[k].completed - 1].outcome.Success?
        ensures ps[k].currentFile == rs[ps[k].completed - 1].file
        ensures ps[k].itemsFound == |rs[ps[k].completed - 1].outcome.value|
      {
        if k < |pi| {
          assert ps[k] == pi[k];
          assert rs[ps[k].completed - 1] == init[ps[k].completed - 1];
        }
      }
      forall k, l | 0 <= k < l < |ps|
        ensures ps[k].completed < ps[l].completed
      {
        if l < |pi| {
          assert ps[k] == pi[k] && ps[l] == pi[l];
        } else {
          assert ps[k] == pi[k];
        }
      }
    }
  }

  /** The items of successful files are valid in basic mode. */
  lemma {:induction false} SuccessItemsValid(rs: seq<FileResult>, files: seq<PdfFile>, exec: (Regex, string) -> seq<Match>)
    requires rs == Outcomes(files, exec)
    ensures forall i :: 0 <= i < |SuccessItems(rs)| ==> ValidateItem(Some(SuccessItems(rs)[i]), false)
    decreases |rs|
  {
    if rs != [] {
      var n := |rs| - 1;
      assert rs[..n] == Outcomes(files[..n], exec);
      SuccessItemsValid(rs[..n], files[..n], exec);
      var a := SuccessItems(rs[..n]);
      var b := if rs[n].outcome.Success? then rs[n].outcome.value else [];
      assert rs[n] == Outcome(files[n], exec);
      ExtractedItemsValid(Some(files[n]), exec);
      forall i | 0 <= i < |a + b|
        ensures ValidateItem(Some((a + b)[i]), false)
      {
        if i < |a| {
          assert (a + b)[i] == a[i];
        } else {
          assert (a + b)[i] == b[i - |a|];
        }
      }
    }
  }

  /** One more result, as the loop sees it. */
  lemma ResultSnoc(rs: seq<FileResult>, fr: FileResult, total: nat)
    ensures var rs' := rs + [fr];
      && SuccessItems(rs') == SuccessItems(rs) + (if fr.outcome.Success? then fr.outcome.value else [])
      && SuccessCount(rs') == SuccessCount(rs) + (if fr.outcome.Success? then 1 else 0)
      && ErrorsOf(rs') == ErrorsOf(rs) + (if fr.outcome.Failure? then [FileError(fr.file, fr.outcome.error)] else [])
      && ProgressOf(rs', total) == ProgressOf(rs, total) +
           (if fr.outcome.Success? then [ProgressEvent(|rs| + 1, total, fr.file, |fr.outcome.value|)] else [])
  {
    assert (rs + [fr])[..|rs|] == rs;
  }

  /** One more file, as the loop sees it. */
  lemma OutcomesSnoc(files: seq<PdfFile>, k: nat, exec: (Regex, string) -> seq<Match>)
    requires k < |files|
    ensures Outcomes(files[..k + 1], exec) == Outcomes(files[..k], exec) + [Outcome(files[k], exec)]
  {
    assert files[..k + 1][..k] == files[..k];
  }

  /** One more file, as the chunk loop sees it: its result is appended, and
      it adds an error when it fails and a progress event when it succeeds. */
  lemma ChunkStep(files: seq<PdfFile>, k: nat, exec: (Regex, string) -> seq<Match>, results: seq<FileResult>)
    requires k < |files| && results == Outcomes(files[..k], exec)
    ensures var outcome := ExtractDataFromPDF(Some(files[k]), exec);
      var rs := results + [FileResult(files[k].name, outcome)];
      && Outcomes(files[..k + 1], exec) == rs
      && ErrorsOf(rs) == (if outcome.Success? then ErrorsOf(results)
                          else ErrorsOf(results) + [FileError(files[k].name, outcome.error)])
      && ProgressOf(rs, |files|) == (if outcome.Success? then ProgressOf(results, |files|) + [ProgressEvent(k + 1, |files|, files[k].name, |outcome.value|)]
                                     else ProgressOf(results, |files|))
  {
    var fr := Outcome(files[k], exec);
    OutcomesSnoc(files, k, exec);
    ResultSnoc(results, fr, |files|);
    assert ErrorsOf(results) + [] == ErrorsOf(results);
    assert ProgressOf(results, |files|) + [] == ProgressOf(results, |files|);
  }

  /** One chunk `files[start..end]`: `batch.map(...)` awaited with `Promise.all`,
      its results appended to `results`, its failures to `errors` and its
      `onProgress` calls to `progress`. */
  method ProcessChunk(files: seq<PdfFile>, start: nat, end: nat, exec: (Regex, string) -> seq<Match>,
                      results0: seq<FileResult>, errors0: seq<FileError>, progress0: seq<ProgressEvent>)
    returns (results: seq<FileResult>, errors: seq<FileError>, progress: seq<ProgressEvent>)
    requires start <= end <= |files|
    requires results0 == Outcomes(files[..start], exec)
    requires errors0 == ErrorsOf(results0) && progress0 == ProgressOf(results0, |files|)
    ensures results == Outcomes(files[..end], exec)
    ensures errors == ErrorsOf(results) && progress == ProgressOf(results, |files|)
  {
    results, errors, progress := results0, errors0, progress0;
    for k := start to end
      invariant results == Outcomes(files[..k], exec)
      invariant errors == ErrorsOf(results) && progress == ProgressOf(results, |files|)
    {
      results, errors, progress := ProcessFile(files, k, exec, results, errors, progress);
    }
  }

  /** The callback `batch.map` runs on file `k`: extract its items, report
      progress on success, record the error on failure. */
  method ProcessFile(files: seq<PdfFile>, k: nat, exec: (Regex, string) -> seq<Match>,
                     results0: seq<FileResult>, errors0: seq<FileError>, progress0: seq<ProgressEvent>)
    returns (results: seq<FileResult>, errors: seq<FileError>, progress: seq<ProgressEvent>)
    requires k < |files| && results0 == Outcomes(files[..k], exec)
    requires errors0 == ErrorsOf(results0) && progress0 == ProgressOf(results0, |files|)
    ensures results == Outcomes(files[..k + 1], exec)
    ensures errors == ErrorsOf(results) && progress == ProgressOf(results, |files|)
  {
    var file := files[k];
    var outcome := ExtractDataFromPDF(Some(file), exec);
    ChunkStep(files, k, exec, results0);
    errors, progress := errors0, progress0;
    if outcome.Success? {
      progress := progress + [ProgressEvent(k + 1, |files|, file.name, |outcome.value|)];
    } else {
      errors := errors + [FileError(file.name, outcome.error)];
    }
    results := results0 + [FileResult(file.name, outcome)];
  }

  /** `batchProcessPDFs(files, { concurrency, onProgress })`. Files are taken
      `concurrency` at a time; `progress` is the sequence of `onProgress`
      calls. The result does not depend on `concurrency`. */
  method BatchProcessPDFs(files: seq<PdfFile>, concurrency: nat, exec: (Regex, string) -> seq<Match>)
    returns (r: Result<BatchResult, string>, progress: seq<ProgressEvent>)
    requires concurrency >= 1
    ensures files == [] <==> r.Failure?
    ensures r.Failure? ==> r.error == "No files provided for batch processing" && progress == []
    ensures r.Success? ==>
      var b := r.value;
      var rs := Outcomes(files, exec);
      var all := SuccessItems(rs);
      && b.processedFiles == |files|
      && b.summary.totalFiles == |files|
      && b.summary.successfulFiles == SuccessCount(rs)
      && b.summary.successfulFiles + b.summary.failedFiles == |files|
      && b.errors == ErrorsOf(rs)
      && b.summary.totalItemsFound == |all|
      && b.items == KeepFirst(all, KeyFn(DefaultDedup), {})
      && b.summary.uniqueItemsFound == |b.items| <= b.summary.totalItemsFound
      && DistinctKeys(b.items, KeyFn(DefaultDedup))
      && (forall i :: 0 <= i < |b.items| ==> ValidateItem(Some(b.items[i]), false))
    ensures r.Success? ==> progress == ProgressOf(Outcomes(files, exec), |files|)
  {
    if files == [] {
      return Failure("No files provided for batch processing"), [];
    }
    var results: seq<FileResult> := [];
    var errors: seq<FileError> := [];
    progress := [];
    var i := 0;
    while i < |files|
      invariant results == Outcomes(files[..if i < |files| then i else |files|], exec)
      invariant errors == ErrorsOf(results) && progress == ProgressOf(results, |files|)
      decreases |files| - i
    {
      var end := if i + concurrency < |files| then i + concurrency else |files|;
      results, errors, progress := ProcessChunk(files, i, end, exec, results, errors, progress);
      i := i + concurrency;
    }
    assert files[..|files|] == files;
    var allItems := SuccessItems(results);
    SuccessItemsValid(results, files, exec);
    DedupKeepsValid(allItems, false);
    var uniqueItems := RemoveDuplicates(Some(allItems), DefaultDedup);
    CountsAddUp(results);
    var summary := Summary(|files|, SuccessCount(results), |errors|, |allItems|, |uniqueItems|);
    r := Success(BatchResult(uniqueItems, |results|, errors, summary));
  }
}
