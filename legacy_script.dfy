/** The older extractor of `script.js`: one pattern, a weaker acceptance
    rule, prices kept as two-decimal strings, and a page-level session that
    holds the selected files, the extracted rows and the status message. */
module LegacyScript {
  import opened Wrappers
  import opened JsString
  import opened JsNumber
  import opened Cleaning
  import opened Dedup
  import opened Extraction
  import opened Batch

  /** A row as `script.js` stores it: the price is the `toFixed(2)` text. */
  datatype ScriptItem = ScriptItem(stockCode: string, description: string, quantity: int, unitPrice: string)

  /** `text.replace(/\s+/g, ' ').trim()`. */
  function ScriptNormalize(s: string): string {
    Trim(CollapseSpaces(s))
  }

  /** The extra `[\r\n]+` pass of the newer extractor changes nothing: both
      normalise text the same way. */
  lemma ScriptNormalizeIsNormalizeText(s: string)
    ensures ScriptNormalize(s) == NormalizeText(s)
  {
    var collapsed := CollapseSpaces(s);
    CollapseSingleSpaced(s);
    NoLineBreakInSingleSpaced(collapsed);
    NoLineBreakFixed(collapsed);
  }

  /** The description: cut at the first case-insensitive `Specifications:`,
      then trimmed; no characters are filtered. */
  function ScriptDescription(g: string): (r: string)
    ensures Trimmed(r)
  {
    Trim(CutAtMarker(Trim(g)))
  }

  /** The stored description holds no `Specifications:`, and keeps every
      visible character of the trimmed capture before the first one. */
  lemma ScriptDescriptionCut(g: string)
    ensures var r := ScriptDescription(g);
      && (forall i :: !MarkerAt(r, i))
      && NonSpace(r) == NonSpace(CutAtMarker(Trim(g)))
  {
    var t := Trim(g);
    var c := CutAtMarker(t);
    var r := Trim(c);
    assert r == ScriptDescription(g);
    assert NonSpace(r) == NonSpace(c) by {
      TrimKeepsNonSpace(c);
    }
    assert forall i :: !MarkerAt(r, i) by {
      NoMarkerInPrefix(t, |c|);
      TrimmedCutNoMarker(c);
    }
  }

  /** Trimming a text without a marker leaves no marker. */
  lemma TrimmedCutNoMarker(c: string)
    requires forall j :: 0 <= j < |c| ==> !MarkerAt(c, j)
    ensures forall i :: !MarkerAt(Trim(c), i)
  {
    TrimSlice(c);
    NoMarkerInSlice(c, LeadingSpace(c), LeadingSpace(c) + |Trim(c)|, Trim(c));
  }

  /** The error `match[k].trim()` raises when group `k` did not take part. */
  const TrimOfUndefined := "Cannot read properties of undefined (reading 'trim')"

  /** One iteration of the `while` loop of `parseTextForItems`: the row a match
      gives, `None` when it is rejected, or the error the loop body throws. */
  function MatchToItem(m: Match): Result<Option<ScriptItem>, string>
  {
    if Group(m, 0).None? || Group(m, 1).None? then Failure(TrimOfUndefined)
    else
      var stockCode := Trim(Group(m, 0).value);
      var description := ScriptDescription(Group(m, 1).value);
      var quantity := QuantityOf(Group(m, 2));
      var price := if Group(m, 3).None? then None else ParseFloat(Group(m, 3).value);
      if description != [] && |description| > 5 && quantity.Val? && price.Some? && quantity.v > 0 then
        Success(Some(ScriptItem(stockCode, description, quantity.v, ToFixed2(price.value))))
      else Success(None)
  }

  /** The definition of `MatchToItem` unfolded case by case, for the lemmas
      below; it states nothing beyond that definition. */
  lemma MatchToItemCases(m: Match)
    ensures var r := MatchToItem(m);
      && (r.Failure? <==> Group(m, 0).None? || Group(m, 1).None?)
      && (r.Success? && r.value.Some? <==>
        && Group(m, 0).Some? && Group(m, 1).Some?
        && |ScriptDescription(Group(m, 1).value)| > 5
        && QuantityOf(Group(m, 2)).Val? && QuantityOf(Group(m, 2)).v > 0
        && Group(m, 3).Some? && ParseFloat(Group(m, 3).value).Some?)
      && (r.Success? && r.value.Some? ==>
        var item := r.value.value;
        && item.stockCode == Trim(Group(m, 0).value)
        && item.description == ScriptDescription(Group(m, 1).value)
        && Val(item.quantity) == QuantityOf(Group(m, 2))
        && item.unitPrice == ToFixed2(ParseFloat(Group(m, 3).value).value))
  {
  }

  /** A stored row carries what the match captured: the code trimmed and in
      its own case, a description with no `Specifications:` left and every
      visible character before it, the quantity `parseInt` reads, and a price
      text that reads back as the captured price rounded to the nearest
      hundredth. */
  lemma MatchRowValues(m: Match)
    ensures var r := MatchToItem(m);
      r.Success? && r.value.Some? ==>
        && Group(m, 0).Some? && Group(m, 1).Some? && Group(m, 3).Some?
        && ParseFloat(Group(m, 3).value).Some?
        && var row := r.value.value;
           var d := ParseFloat(Group(m, 3).value).value;
           var e := ParseFloat(row.unitPrice);
           && row.stockCode == Trim(Group(m, 0).value)
           && (forall i :: !MarkerAt(row.description, i))
           && NonSpace(row.description) == NonSpace(CutAtMarker(Trim(Group(m, 1).value)))
           && QuantityOf(Group(m, 2)) == Val(row.quantity)
           && e.Some? && e.value.scale == 2 && RoundToCents(e.value) == RoundToCents(d)
           && NearestHundredth(Abs(RoundToCents(e.value)), d.mantissa, Pow10(d.scale))
  {
    MatchToItemCases(m);
    var r := MatchToItem(m);
    if r.Success? && r.value.Some? {
      ScriptDescriptionCut(Group(m, 1).value);
      ToFixed2RoundTrip(ParseFloat(Group(m, 3).value).value);
      RoundToCentsNearest(ParseFloat(Group(m, 3).value).value);
    }
  }

  /** The rows the matches `ms` give, in order, or the first error. */
  function ScriptItems(ms: seq<Match>): Result<seq<ScriptItem>, string> {
    if ms == [] then Success([])
    else
      match ScriptItems(ms[..|ms| - 1])
      case Failure(e) => Failure(e)
      case Success(items) =>
        match MatchToItem(ms[|ms| - 1])
        case Failure(e) => Failure(e)
        case Success(step) => Success(items + (if step.Some? then [step.value] else []))
  }

  /** What every stored row satisfies: a trimmed code, a trimmed description
      longer than five characters, a positive quantity, and a price text that
      reads back as a two-decimal number. */
  predicate RowAccepted(row: ScriptItem) {
    && Trimmed(row.stockCode)
    && Trimmed(row.description) && |row.description| > 5
    && row.quantity > 0
    && ParseFloat(row.unitPrice).Some? && ParseFloat(row.unitPrice).value.scale == 2
  }

  /** A row read from one match is acceptable. */
  lemma MatchRowAccepted(m: Match)
    ensures var r := MatchToItem(m);
      r.Success? && r.value.Some? ==> RowAccepted(r.value.value)
  {
    MatchToItemCases(m);
    MatchRowValues(m);
  }

  /** Every row the parse returns is acceptable. */
  lemma {:induction false} ScriptItemsAccepted(ms: seq<Match>)
    ensures var r := ScriptItems(ms);
      r.Success? ==> forall k :: 0 <= k < |r.value| ==> RowAccepted(r.value[k])
    decreases |ms|
  {
    if ms != [] {
      var init := ms[..|ms| - 1];
      ScriptItemsAccepted(init);
      MatchRowAccepted(ms[|ms| - 1]);
    }
  }

  /** One step of the parse: the rows of one more match. */
  lemma ScriptItemsSnoc(ms: seq<Match>, i: nat, items: seq<ScriptItem>)
    requires i < |ms|
    requires ScriptItems(ms[..i]) == Success(items)
    ensures var step := MatchToItem(ms[i]);
      ScriptItems(ms[..i + 1]) ==
        if step.Failure? then Failure(step.error) else Success(items + (if step.value.Some? then [step.value.value] else []))
  {
    assert ms[..i + 1][..i] == ms[..i];
  }

  /** Once a match throws, the whole parse throws that error. */
  lemma {:induction false} FailureStops(ms: seq<Match>, i: nat)
    requires i < |ms|
    requires ScriptItems(ms[..i + 1]).Failure?
    ensures ScriptItems(ms) == ScriptItems(ms[..i + 1])
    decreases |ms| - i
  {
    if i + 1 < |ms| {
      assert ms[..i + 2][..i + 1] == ms[..i + 1];
      FailureStops(ms, i + 1);
    } else {
      assert ms[..i + 1] == ms;
    }
  }

  /** A price of zero passes the acceptance rule (compare `ZeroPriceRejected`). */
  lemma ZeroPriceAccepted(m: Match)
    requires Group(m, 0).Some? && Group(m, 1).Some?
    requires |ScriptDescription(Group(m, 1).value)| > 5
    requires QuantityOf(Group(m, 2)).Val? && QuantityOf(Group(m, 2)).v > 0
    requires Group(m, 3) == Some("0.00")
    ensures MatchToItem(m).Success? && MatchToItem(m).value.Some?
    ensures MatchToItem(m).value.value.unitPrice == "0.00"
  {
    ZeroPriceParses(Group(m, 3).value);
    ZeroPriceText();
    MatchToItemCases(m);
  }

  /** `(0).toFixed(2)` is `0.00`. */
  lemma ZeroPriceText()
    ensures ToFixed2(Decimal(false, 0, 2)) == "0.00"
  {
    var d := Decimal(false, 0, 2);
    ZeroRounds(d);
    assert NatToString(0) == "0";
    assert SignText(false) == "";
    assert DigitChar(0) == '0';
  }

  /** `parseFloat("0.00")` is the number zero, written with two decimals. */
  lemma ZeroPriceParses(s: string)
    requires s == "0.00"
    ensures ParseFloat(s) == Some(Decimal(false, 0, 2))
  {
    ZeroLiteral("0", "00");
    ZeroLiteralText();
  }

  /** A literal whose digits are all `0` reads back as zero. */
  lemma ZeroLiteral(ip: string, fp: string)
    requires |ip| >= 1 && AllZeros(ip) && AllZeros(fp)
    ensures ParseFloat(Literal(false, ip, Some(fp))) == Some(Decimal(false, 0, |fp|))
  {
    ParseDecimalLiteral(false, ip, fp);
    ZerosValue(ip + fp);
  }

  predicate AllZeros(s: string) {
    forall i :: 0 <= i < |s| ==> s[i] == '0'
  }

  lemma {:induction false} ZerosValue(ds: string)
    requires AllZeros(ds)
    ensures AllDigits(ds) && DigitsValue(ds) == 0
    decreases |ds|
  {
    if ds != [] {
      ZerosValue(ds[..|ds| - 1]);
    }
  }

  lemma ZeroLiteralText()
    ensures Literal(false, "0", Some("00")) == "0.00"
  {
    assert SignText(false) == "";
    assert "0" + ("." + "00") == "0.00";
  }

  /** The newer extractor reads the same price of `0.00` as zero, which
      `validateItem` rejects. */
  lemma ZeroPriceRejected(m: Match, patternIndex: nat)
    requires |m.groups| >= 4 && Group(m, 3) == Some("0.00")
    ensures ExtractItemFromMatch(m, patternIndex).value.unitPrice == Val(0)
    ensures !ValidateItem(ExtractItemFromMatch(m, patternIndex), false)
  {
    ZeroPriceParses(Group(m, 3).value);
    ExtractedPriceExact(m, patternIndex, 0);
  }

  /** `parseTextForItems(text)`: normalise, then read rows from every match of
      the serial-row pattern, with no cap on the number of matches. */
  method ScriptParseTextForItems(text: string, exec: (Regex, string) -> seq<Match>) returns (r: Result<seq<ScriptItem>, string>)
    ensures r == ScriptItems(exec(SerialRow, ScriptNormalize(text)))
  {
    var clean := ScriptNormalize(text);
    r := ReadRows(exec(SerialRow, clean));
  }

  /** The `while ((match = regex.exec(cleanText)) !== null)` loop: every match
      in turn, stopping at the first one that throws. */
  method ReadRows(ms: seq<Match>) returns (r: Result<seq<ScriptItem>, string>)
    ensures r == ScriptItems(ms)
  {
    var items: seq<ScriptItem> := [];
    var i := 0;
    while i < |ms|
      invariant i <= |ms|
      invariant ScriptItems(ms[..i]) == Success(items)
    {
      var next := ReadRow(ms, i, items);
      if next.Failure? {
        FailureStops(ms, i);
        return next;
      }
      items := next.value;
      i := i + 1;
    }
    assert ms[..i] == ms;
    r := Success(items);
  }

  /** One pass of the loop body on match `i`: the row is pushed when it is
      accepted, skipped when it is not, and an error ends the parse. */
  method ReadRow(ms: seq<Match>, i: nat, items: seq<ScriptItem>) returns (next: Result<seq<ScriptItem>, string>)
    requires i < |ms| && ScriptItems(ms[..i]) == Success(items)
    ensures next == ScriptItems(ms[..i + 1])
  {
    var step := MatchToItem(ms[i]);
    ScriptItemsSnoc(ms, i, items);
    if step.Failure? {
      next := Failure(step.error);
    } else if step.value.Some? {
      next := Success(items + [step.value.value]);
    } else {
      assert items + [] == items;
      next := Success(items);
    }
  }

  /** `extractDataFromPDF(file)` of `script.js`: a failed read throws; the
      text is parsed as it is, even when it is empty. */
  function ScriptExtract(file: PdfFile, exec: (Regex, string) -> seq<Match>): Result<seq<ScriptItem>, string> {
    match file.reading
    case ReadFailed(reason) => Failure(reason)
    case TextRead(fullText) => ScriptItems(exec(SerialRow, ScriptNormalize(fullText)))
  }

  /** The rows of the files whose extraction succeeded, in file order. */
  function Gathered(files: seq<PdfFile>, exec: (Regex, string) -> seq<Match>): seq<ScriptItem> {
    if files == [] then []
    else
      var res := ScriptExtract(files[|files| - 1], exec);
      Gathered(files[..|files| - 1], exec) + (if res.Success? then res.value else [])
  }

  /** The number of files whose extraction succeeded. */
  function Processed(files: seq<PdfFile>, exec: (Regex, string) -> seq<Match>): (n: nat)
    ensures n <= |files|
  {
    if files == [] then 0
    else Processed(files[..|files| - 1], exec) + (if ScriptExtract(files[|files| - 1], exec).Success? then 1 else 0)
  }

  /** One more file: its rows are appended and it is counted exactly when its
      extraction succeeds. */
  lemma ConvertStep(files: seq<PdfFile>, k: nat, exec: (Regex, string) -> seq<Match>)
    requires k < |files|
    ensures var res := ScriptExtract(files[k], exec);
      && Gathered(files[..k + 1], exec) == Gathered(files[..k], exec) + (if res.Success? then res.value else [])
      && Processed(files[..k + 1], exec) == Processed(files[..k], exec) + (if res.Success? then 1 else 0)
  {
    assert files[..k + 1][..k] == files[..k];
  }

  /** The comparison of the cross-file deduplication: description, quantity
      and price text, compared exactly; the stock code is not compared. */
  function Triple(item: ScriptItem): (string, int, string) {
    (item.description, item.quantity, item.unitPrice)
  }

  /** The equation half of `TripleDedup`, which is all `ConvertFiles` needs. */
  lemma TripleFilterIsKeepFirst(rows: seq<ScriptItem>)
    ensures FilterFirst(rows, Triple, 0) == KeepFirst(rows, Triple, {})
  {
    TripleDedup(rows);
  }

  /** `filter((item, index, self) => index === self.findIndex(...))` keeps the
      first row of each triple, in order, and no two kept rows share one. */
  lemma TripleDedup(rows: seq<ScriptItem>)
    ensures var u := FilterFirst(rows, Triple, 0);
      && u == KeepFirst(rows, Triple, {})
      && IsSubsequence(u, rows)
      && DistinctKeys(u, Triple)
      && KeysOf(u, Triple) == KeysOf(rows, Triple)
  {
    FilterFirstAll(rows, Triple);
    KeepFirstFromScratch(rows, Triple);
  }

  /** A row whose description, quantity and price match an earlier row is
      dropped by the cross-file filter, whatever its stock code. */
  lemma StockCodeIgnored(rows: seq<ScriptItem>, i: nat, b: ScriptItem)
    requires i < |rows|
    requires rows[i].description == b.description && rows[i].quantity == b.quantity
    requires rows[i].unitPrice == b.unitPrice
    ensures FilterFirst(rows + [b], Triple, 0) == FilterFirst(rows, Triple, 0)
  {
    TripleFilterIsKeepFirst(rows + [b]);
    TripleFilterIsKeepFirst(rows);
    KeepFirstSnoc(rows, b, Triple);
    assert rows[i] in rows && Triple(rows[i]) == Triple(b);
    assert Triple(b) in KeysOf(rows, Triple);
  }

  /** A message shown by `showStatusMessage`: its text and its type. */
  datatype Status = Status(message: string, kind: string)

  /** The message shown at the end of `convertFiles`. */
  function StatusFor(processed: nat, unique: nat): (s: Status)
    ensures s.kind == "success" <==> unique > 0
  {
    if unique > 0 then
      Status("Successfully processed " + NatToString(processed) + " PDF file(s) and extracted "
        + NatToString(unique) + " unique item(s).", "success")
    else
      Status("Processed " + NatToString(processed) + " PDF file(s), but could not find any items matching the required format.", "error")
  }

  /** `selectedFiles.some(f => f.name === name)`. */
  function HasName(files: seq<PdfFile>, name: string): (b: bool)
    ensures b <==> exists i :: 0 <= i < |files| && files[i].name == name
  {
    if files == [] then false
    else files[0].name == name || HasName(files[1..], name)
  }

  /** No two files share a name. */
  predicate NamesUnique(files: seq<PdfFile>) {
    forall i, j :: 0 <= i < j < |files| ==> files[i].name != files[j].name
  }

  /** The list after `handleFileSelection` has looked at `files`: each PDF
      whose name is not yet present is appended. */
  function AddFiles(selected: seq<PdfFile>, files: seq<PdfFile>): seq<PdfFile> {
    if files == [] then selected
    else
      var s := AddFiles(selected, files[..|files| - 1]);
      var f := files[|files| - 1];
      if f.mimeType == PdfMime && !HasName(s, f.name) then s + [f] else s
  }

  /** Adding files keeps the old list as a prefix, appends only offered PDFs
      whose name was not already selected, in the order offered, leaves
      every offered PDF's name in the list, and keeps names unique. */
  lemma {:induction false} AddFilesProperties(selected: seq<PdfFile>, files: seq<PdfFile>)
    ensures var s := AddFiles(selected, files);
      && |selected| <= |s| && s[..|selected|] == selected
      && IsSubsequence(s[|selected|..], files)
      && (forall i :: |selected| <= i < |s| ==> s[i].mimeType == PdfMime && !HasName(selected, s[i].name))
      && (forall i :: 0 <= i < |files| && files[i].mimeType == PdfMime ==> HasName(s, files[i].name))
      && (NamesUnique(selected) ==> NamesUnique(s))
    decreases |files|
  {
    AddFilesOrigin(selected, files);
    AddFilesCovers(selected, files);
    if NamesUnique(selected) {
      AddFilesUnique(selected, files);
    }
  }

  /** Every offered PDF's name is in the list afterwards. */
  lemma {:induction false} AddFilesCovers(selected: seq<PdfFile>, files: seq<PdfFile>)
    ensures forall i :: 0 <= i < |files| && files[i].mimeType == PdfMime ==>
      HasName(AddFiles(selected, files), files[i].name)
    decreases |files|
  {
    if files != [] {
      var init := files[..|files| - 1];
      AddFilesCovers(selected, init);
      var s0 := AddFiles(selected, init);
      var f := files[|files| - 1];
      var s := AddFiles(selected, files);
      assert s == s0 || s == s0 + [f];
      forall i | 0 <= i < |files| && files[i].mimeType == PdfMime
        ensures HasName(s, files[i].name)
      {
        if i < |files| - 1 {
          assert files[i] == init[i];
          var j :| 0 <= j < |s0| && s0[j].name == files[i].name;
          assert s[j] == s0[j];
        } else if s != s0 {
          assert s[|s| - 1] == f;
        }
      }
    }
  }

  /** Adding files to a list with unique names keeps the names unique. */
  lemma {:induction false} AddFilesUnique(selected: seq<PdfFile>, files: seq<PdfFile>)
    requires NamesUnique(selected)
    ensures NamesUnique(AddFiles(selected, files))
    decreases |files|
  {
    if files != [] {
      var init := files[..|files| - 1];
      AddFilesUnique(selected, init);
      var s0 := AddFiles(selected, init);
      var f := files[|files| - 1];
      if f.mimeType == PdfMime && !HasName(s0, f.name) {
        SnocUnique(s0, f);
      }
    }
  }

  /** Appending a file whose name is new keeps the names unique. */
  lemma SnocUnique(s: seq<PdfFile>, f: PdfFile)
    requires NamesUnique(s) && !HasName(s, f.name)
    ensures NamesUnique(s + [f])
  {
    var t := s + [f];
    forall i, j | 0 <= i < j < |t|
      ensures t[i].name != t[j].name
    {
      assert t[i] == s[i];
      if j < |s| {
        assert t[j] == s[j];
      }
    }
  }

  /** What `handleFileSelection` appends: offered PDFs not yet selected, in
      the order offered, after the old list. */
  lemma {:induction false} AddFilesOrigin(selected: seq<PdfFile>, files: seq<PdfFile>)
    ensures var s := AddFiles(selected, files);
      && |selected| <= |s| && s[..|selected|] == selected
      && IsSubsequence(s[|selected|..], files)
      && (forall i :: |selected| <= i < |s| ==> s[i].mimeType == PdfMime && !HasName(selected, s[i].name))
    decreases |files|
  {
    if files == [] {
      assert AddFiles(selected, files)[|selected|..] == [];
    } else {
      var init, f := files[..|files| - 1], files[|files| - 1];
      AddFilesOrigin(selected, init);
      var s0 := AddFiles(selected, init);
      assert files == init + [f];
      if f.mimeType == PdfMime && !HasName(s0, f.name) {
        AppendOrigin(selected, s0, init, f);
      } else {
        SubsequenceExtend(s0[|selected|..], init, f);
      }
    }
  }

  /** One offered PDF appended after the list built so far keeps what
      `AddFilesOrigin` states. */
  lemma AppendOrigin(selected: seq<PdfFile>, s0: seq<PdfFile>, init: seq<PdfFile>, f: PdfFile)
    requires |selected| <= |s0| && s0[..|selected|] == selected
    requires IsSubsequence(s0[|selected|..], init)
    requires forall i :: |selected| <= i < |s0| ==> s0[i].mimeType == PdfMime && !HasName(selected, s0[i].name)
    requires f.mimeType == PdfMime && !HasName(s0, f.name)
    ensures var s := s0 + [f];
      && s[..|selected|] == selected
      && IsSubsequence(s[|selected|..], init + [f])
      && (forall i :: |selected| <= i < |s| ==> s[i].mimeType == PdfMime && !HasName(selected, s[i].name))
  {
    var s := s0 + [f];
    var k := |selected|;
    SnocSlices(s0, f, k);
    SubsequenceSnoc(s0[k..], init, f);
    NotInPrefix(s0, k, f.name);
    forall i | k <= i < |s|
      ensures s[i].mimeType == PdfMime && !HasName(selected, s[i].name)
    {
      if i < |s0| {
        assert s[i] == s0[i];
      }
    }
  }

  /** Slicing a list with one element appended. */
  lemma SnocSlices<T>(s0: seq<T>, x: T, k: nat)
    requires k <= |s0|
    ensures (s0 + [x])[k..] == s0[k..] + [x] && (s0 + [x])[..k] == s0[..k]
  {
  }

  /** A name absent from a list is absent from each of its prefixes. */
  lemma NotInPrefix(s: seq<PdfFile>, k: nat, name: string)
    requires k <= |s| && !HasName(s, name)
    ensures !HasName(s[..k], name)
  {
    forall j | 0 <= j < k
      ensures s[..k][j].name != name
    {
      assert s[..k][j] == s[j];
    }
  }

  /** `splice(index, 1)` on a list: a negative index counts from the end, an
      index past the end removes nothing. */
  function SpliceOne<T>(s: seq<T>, index: int): (r: seq<T>)
    ensures 0 <= index < |s| ==> r == s[..index] + s[index + 1..]
    ensures index >= |s| ==> r == s
    ensures -|s| <= index < 0 ==> r == s[..|s| + index] + s[|s| + index + 1..]
    ensures index < -|s| && s != [] ==> r == s[1..]
  {
    var start := if index >= 0 then index else if |s| + index > 0 then |s| + index else 0;
    if start < |s| then s[..start] + s[start + 1..] else s
  }

  /** Dropping the element at `a` keeps names unique. */
  lemma RemoveAtKeepsUnique(s: seq<PdfFile>, a: nat)
    requires a < |s| && NamesUnique(s)
    ensures NamesUnique(s[..a] + s[a + 1..])
  {
    var r := s[..a] + s[a + 1..];
    forall i, j | 0 <= i < j < |r|
      ensures r[i].name != r[j].name
    {
      var i' := if i < a then i else i + 1;
      var j' := if j < a then j else j + 1;
      assert r[i] == s[i'] && r[j] == s[j'];
    }
  }

  /** Removing one file keeps names unique. */
  lemma RemoveKeepsUnique(s: seq<PdfFile>, index: int)
    requires NamesUnique(s)
    ensures NamesUnique(SpliceOne(s, index))
  {
    if 0 <= index < |s| {
      RemoveAtKeepsUnique(s, index);
    } else if -|s| <= index < 0 {
      RemoveAtKeepsUnique(s, |s| + index);
    } else if index < -|s| && s != [] {
      RemoveAtKeepsUnique(s, 0);
      assert s[..0] + s[1..] == s[1..];
    }
  }

  /** The loop of `convertFiles` over the selected files: each file is
      extracted in turn, and a file that throws is skipped and not counted. */
  method ExtractAll(files: seq<PdfFile>, exec: (Regex, string) -> seq<Match>) returns (rows: seq<ScriptItem>, processedFiles: nat)
    ensures rows == Gathered(files, exec)
    ensures processedFiles == Processed(files, exec)
  {
    rows := [];
    processedFiles := 0;
    for k := 0 to |files|
      invariant rows == Gathered(files[..k], exec)
      invariant processedFiles == Processed(files[..k], exec)
    {
      ConvertStep(files, k, exec);
      var data: Result<seq<ScriptItem>, string>;
      match files[k].reading {
        case ReadFailed(reason) =>
          data := Failure(reason);
        case TextRead(fullText) =>
          data := ScriptParseTextForItems(fullText, exec);
      }
      assert data == ScriptExtract(files[k], exec);
      if data.Success? {
        rows := rows + data.value;
        processedFiles := processedFiles + 1;
      } else {
        assert rows + [] == rows;
      }
    }
    assert files[..|files|] == files;
  }

  /** The page state of `script.js`: the selected files, the extracted rows
      and the last status message. */
  class Session {
    var selectedFiles: seq<PdfFile>
    var extractedData: seq<ScriptItem>
    var status: Option<Status>

    /** The selected files are PDFs with distinct names. */
    predicate Valid()
      reads this
    {
      NamesUnique(selectedFiles) && forall i :: 0 <= i < |selectedFiles| ==> selectedFiles[i].mimeType == PdfMime
    }

    constructor ()
      ensures Valid()
      ensures selectedFiles == [] && extractedData == [] && status == None
    {
      selectedFiles := [];
      extractedData := [];
      status := None;
    }

    /** `handleFileSelection(event)` with `event.target.files == files`. */
    method HandleFileSelection(files: seq<PdfFile>)
      requires Valid()
      modifies this
      ensures Valid()
      ensures selectedFiles == AddFiles(old(selectedFiles), files)
      ensures extractedData == old(extractedData) && status == old(status)
    {
      ghost var start := selectedFiles;
      for k := 0 to |files|
        invariant selectedFiles == AddFiles(start, files[..k])
        invariant extractedData == old(extractedData) && status == old(status)
      {
        var file := files[k];
        assert files[..k + 1][..k] == files[..k];
        if file.mimeType == PdfMime && !HasName(selectedFiles, file.name) {
          selectedFiles := selectedFiles + [file];
        }
      }
      assert files[..|files|] == files;
      AddFilesProperties(start, files);
    }

    /** `removeFile(index)`. */
    method RemoveFile(index: int)
      requires Valid()
      modifies this
      ensures Valid()
      ensures selectedFiles == SpliceOne(old(selectedFiles), index)
      ensures extractedData == old(extractedData) && status == old(status)
    {
      RemoveKeepsUnique(selectedFiles, index);
      selectedFiles := SpliceOne(selectedFiles, index);
    }

    /** `convertFiles()`: with no files nothing happens; otherwise every file
      is extracted in turn, a file that throws is skipped and not counted,
      the rows are deduplicated by `Triple`, and the final message is set. */
    method ConvertFiles(exec: (Regex, string) -> seq<Match>)
      requires Valid()
      modifies this
      ensures Valid()
      ensures selectedFiles == old(selectedFiles)
      ensures old(selectedFiles) == [] ==> extractedData == old(extractedData) && status == old(status)
      ensures old(selectedFiles) != [] ==>
        && extractedData == KeepFirst(Gathered(selectedFiles, exec), Triple, {})
        && status == Some(StatusFor(Processed(selectedFiles, exec), |extractedData|))
    {
      if selectedFiles == [] {
        return;
      }
      var rows, processedFiles := ExtractAll(selectedFiles, exec);
      var unique := FilterFirst(rows, Triple, 0);
      TripleFilterIsKeepFirst(rows);
      extractedData := unique;
      status := Some(StatusFor(processedFiles, |unique|));
    }
  }
}
