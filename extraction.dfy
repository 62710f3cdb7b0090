/** The line-item extractor of `pdfProcessor.js`: turning regular-expression
    matches into items, validating them, deduplicating them by a composite
    key, and running the ordered list of patterns over normalised text.

    The regular-expression engine is not modelled: `exec(pattern, text)` is
    the sequence of non-null results that repeated calls of
    `pattern.exec(text)` return, in order. */
module Extraction {
  import opened Wrappers
  import opened JsString
  import opened JsNumber
  import opened Cleaning
  import opened Dedup

  /** A regular expression, by its source text and flags. */
  datatype Regex = Regex(source: string, flags: string)

  /** One result of `RegExp.prototype.exec`: the matched text (`match[0]`) and
      the capture groups (`match[1]`, ...), `None` for a group that did not
      take part. The match array has `1 + |groups|` entries. */
  datatype Match = Match(whole: string, groups: seq<Option<string>>)

  /** `match[k + 1]`, `None` when it is `undefined`. */
  function Group(m: Match, k: nat): Option<string> {
    if k < |m.groups| then m.groups[k] else None
  }

  /** Serial number, part number, description, quantity, price ending in "yuan". */
  const SerialRow := Regex("\\d+\\s+([0-9A-Z\\-]+)\\s+([\\s\\S]+?)\\s+(\\d+)\\s+\\$?(\\d+\\.\\d{2})\\s*yuan", "gi")

  /** `CODE-1 description qty: N price: $P`. */
  const KeyValueRow := Regex("(\\w+[-_]\\w+)\\s+([\\w\\s,.-]+?)\\s+qty:\\s*(\\d+)\\s+price:\\s*\\$?(\\d+\\.?\\d*)", "gi")

  /** `CODE "description" N @ $P`. */
  const QuotedRow := Regex("([A-Z0-9-]+)\\s+\"([^\"]+)\"\\s+(\\d+)\\s+@\\s*\\$?(\\d+\\.\\d{2})", "gi")

  /** The built-in patterns, tried before the caller's. */
  const BuiltInPatterns := [SerialRow, KeyValueRow, QuotedRow]

  /** At most this many matches of one pattern are looked at. */
  const MatchCap := 1000

  /** An extracted line item. `quantity` is an integer or NaN; `unitPrice` is
      a count of hundredths or NaN; `pattern` is the 1-based number of the
      pattern that produced it (the `source` field is `pattern_<n>`). */
  datatype Item = Item(stockCode: string, description: string, quantity: Num, unitPrice: Num,
                       pattern: nat, rawMatch: string)

  /** The pattern number of an item, as a function value. */
  function PatternOf(item: Item): int {
    item.pattern
  }

  /** The `source` field of an item from pattern number `n`. */
  function SourceText(n: nat): string {
    "pattern_" + NatToString(n)
  }

  /** `match[k]?.trim() || ''`. */
  function TrimmedOrEmpty(g: Option<string>): (r: string)
    ensures Trimmed(r)
    ensures g.None? ==> r == ""
    ensures g.Some? ==> r == Trim(g.value)
  {
    match g
    case None => ""
    case Some(s) => Trim(s)
  }

  /** `parseFloat(parseFloat(g).toFixed(2))` in hundredths; `parseFloat(undefined)` is NaN. */
  function PriceOf(g: Option<string>): Num {
    if g.None? then NaN
    else
      var d := ParseFloat(g.value);
      if d.None? then NaN else Val(RoundToCents(d.value))
  }

  /** `parseInt(g, 10)`; `parseInt(undefined, 10)` is NaN. */
  function QuantityOf(g: Option<string>): Num {
    if g.None? then NaN else ParseInt(g.value)
  }

  lemma UpperTrimmed(s: string)
    requires Trimmed(s)
    ensures Trimmed(ToUpper(s))
  {
  }

  /** `extractItemFromMatch(match, patternIndex)`. */
  function ExtractItemFromMatch(m: Match, patternIndex: nat): (r: Option<Item>)
    ensures r.None? <==> |m.groups| < 4
    ensures r.Some? ==>
      && r.value.pattern == patternIndex + 1
      && r.value.rawMatch == m.whole
      && Trimmed(r.value.stockCode)
      && (forall i :: 0 <= i < |r.value.stockCode| ==> !('a' <= r.value.stockCode[i] <= 'z'))
      && Trimmed(r.value.description)
      && (forall i :: 0 <= i < |r.value.description| ==> DescriptionChar(r.value.description[i]))
      && (r.value.quantity.NaN? <==> Group(m, 2).None? || ParseInt(Group(m, 2).value).NaN?)
      && (r.value.unitPrice.NaN? <==> Group(m, 3).None? || ParseFloat(Group(m, 3).value).None?)
  {
    if |m.groups| < 4 then None
    else
      var code := TrimmedOrEmpty(Group(m, 0));
      UpperTrimmed(code);
      Some(Item(ToUpper(code), CleanDescription(TrimmedOrEmpty(Group(m, 1))),
                QuantityOf(Group(m, 2)), PriceOf(Group(m, 3)), patternIndex + 1, m.whole))
  }

  /** Each field of an extracted item comes from its capture: the code is
      the trimmed capture in upper case, the description the cleaned trimmed
      capture, the quantity what `parseInt` reads, and the price the captured
      number rounded to the nearest hundredth, a half going away from zero,
      with its sign. */
  lemma ExtractedFields(m: Match, patternIndex: nat)
    requires |m.groups| >= 4
    ensures var item := ExtractItemFromMatch(m, patternIndex).value;
      && item.stockCode == ToUpper(TrimmedOrEmpty(Group(m, 0)))
      && item.description == CleanDescription(TrimmedOrEmpty(Group(m, 1)))
      && (Group(m, 2).Some? ==> item.quantity == ParseInt(Group(m, 2).value))
      && (item.unitPrice.Val? ==>
          && Group(m, 3).Some? && ParseFloat(Group(m, 3).value).Some?
          && var d := ParseFloat(Group(m, 3).value).value;
          && NearestHundredth(Abs(item.unitPrice.v), d.mantissa, Pow10(d.scale))
          && (item.unitPrice.v < 0 ==> d.negative)
          && (item.unitPrice.v > 0 ==> !d.negative))
  {
    var g := Group(m, 3);
    if g.Some? && ParseFloat(g.value).Some? {
      RoundToCentsNearest(ParseFloat(g.value).value);
    }
  }

  /** A price that `parseFloat` reads with exactly two decimals is kept
      exactly, in hundredths. */
  lemma ExtractedPriceExact(m: Match, patternIndex: nat, v: nat)
    requires |m.groups| >= 4
    requires Group(m, 3).Some? && ParseFloat(Group(m, 3).value) == Some(Decimal(false, v, 2))
    ensures ExtractItemFromMatch(m, patternIndex).value.unitPrice == Val(v)
  {
    UnitPriceOf(m, patternIndex);
    TwoDecimalCents(Decimal(false, v, 2));
    PriceOfCents(Group(m, 3).value, v);
  }

  lemma UnitPriceOf(m: Match, patternIndex: nat)
    requires |m.groups| >= 4
    ensures ExtractItemFromMatch(m, patternIndex).value.unitPrice == PriceOf(Group(m, 3))
  {
  }

  /** A price text that `parseFloat` reads as `c` hundredths gives `c`. */
  lemma PriceOfCents(s: string, c: int)
    requires ParseFloat(s).Some? && RoundToCents(ParseFloat(s).value) == c
    ensures PriceOf(Some(s)) == Val(c)
  {
  }

  /** A quantity captured as the digits of `n` is read as `n`. */
  lemma ExtractedQuantityExact(m: Match, patternIndex: nat, n: nat)
    requires |m.groups| >= 4
    requires Group(m, 2) == Some(NatToString(n))
    ensures ExtractItemFromMatch(m, patternIndex).value.quantity == Val(n)
  {
    IntToStringRoundTrip(n);
    assert ExtractItemFromMatch(m, patternIndex).value.quantity == QuantityOf(Group(m, 2));
  }

  /** `/^[A-Z0-9-_]+$/`. */
  predicate StrictCodeChar(c: char) {
    'A' <= c <= 'Z' || IsDigit(c) || c == '-' || c == '_'
  }

  /** The basic profile of `validateItem`. */
  predicate BasicValid(item: Item) {
    && |item.stockCode| >= 2
    && |item.description| >= 3
    && item.quantity.Val? && item.quantity.v > 0
    && item.unitPrice.Val? && item.unitPrice.v > 0
  }

  /** What strict mode checks on top of the basic profile; a price of at most
      100000 is at most 10000000 hundredths. */
  predicate StrictChecks(item: Item) {
    && |item.stockCode| >= 1 && (forall i :: 0 <= i < |item.stockCode| ==> StrictCodeChar(item.stockCode[i]))
    && 5 <= |item.description| <= 200
    && item.quantity.Val? && item.quantity.v <= 10000
    && item.unitPrice.Val? && item.unitPrice.v <= 10000000
  }

  /** `validateItem(item, strictMode)`; `None` is anything that is not an object. */
  function ValidateItem(item: Option<Item>, strict: bool): (r: bool)
    ensures r ==> item.Some? && item.value.quantity.Val? && item.value.quantity.v > 0
    ensures r ==> item.value.unitPrice.Val? && item.value.unitPrice.v > 0
    ensures r && strict ==> item.value.unitPrice.v <= 10000000 && item.value.quantity.v <= 10000
  {
    item.Some? && BasicValid(item.value) && (strict ==> StrictChecks(item.value))
  }

  /** Whatever passes strict validation passes basic validation. */
  lemma StrictImpliesBasic(item: Option<Item>)
    ensures ValidateItem(item, true) ==> ValidateItem(item, false)
  {
  }

  /** The two profiles differ: a four-letter description passes only basic
      validation, and the price bound of strict mode is inclusive. */
  lemma ProfilesDiffer()
    ensures var cord := Item("AB-1", "Cord", Val(1), Val(150), 1, "");
      ValidateItem(Some(cord), false) && !ValidateItem(Some(cord), true)
    ensures var top := Item("AB-1", "Cable", Val(1), Val(10000000), 1, "");
      ValidateItem(Some(top), true) && !ValidateItem(Some(top.(unitPrice := Val(10000001))), true)
  {
  }

  /** A field that `removeDuplicates` can compare; `Missing` is a field name
      items do not have, which contributes `undefined` to the key. */
  datatype Field = StockCode | Description | Quantity | UnitPrice | Source | RawMatch | Missing

  /** The `compareFields` and `caseSensitive` options of `removeDuplicates`. */
  datatype DedupOptions = DedupOptions(compareFields: seq<Field>, caseSensitive: bool)

  /** The defaults: the four data fields, compared without regard to case. */
  const DefaultDedup := DedupOptions([StockCode, Description, Quantity, UnitPrice], false)

  /** A string field as it enters the key. */
  function Fold(s: string, caseSensitive: bool): string {
    if caseSensitive then s else ToLower(s)
  }

  /** One field as `join` renders it: strings lower-cased unless
      `caseSensitive`, numbers as `String(n)`, `undefined` as the empty string. */
  function FieldText(item: Item, f: Field, caseSensitive: bool): string {
    match f
    case StockCode => Fold(item.stockCode, caseSensitive)
    case Description => Fold(item.description, caseSensitive)
    case Quantity => IntNumToString(item.quantity)
    case UnitPrice => CentsNumToString(item.unitPrice)
    case Source => Fold(SourceText(item.pattern), caseSensitive)
    case RawMatch => Fold(item.rawMatch, caseSensitive)
    case Missing => ""
  }

  /** The comparison key: the compared fields joined with `|`. */
  function DedupKey(item: Item, opts: DedupOptions): string {
    Join(KeyParts(item, opts.compareFields, opts.caseSensitive), "|")
  }

  /** `compareFields.map(...)`: the rendered fields, in the order given. */
  function KeyParts(item: Item, fields: seq<Field>, caseSensitive: bool): (r: seq<string>)
    ensures |r| == |fields|
    ensures forall i :: 0 <= i < |fields| ==> r[i] == FieldText(item, fields[i], caseSensitive)
  {
    if fields == [] then []
    else [FieldText(item, fields[0], caseSensitive)] + KeyParts(item, fields[1..], caseSensitive)
  }

  /** The key as a function of the item. */
  function KeyFn(opts: DedupOptions): Item -> string {
    item => DedupKey(item, opts)
  }

  /** Without `caseSensitive`, items that differ only in the case of their
      strings have the same key. */
  lemma CaseInsensitiveKey(a: Item, b: Item, opts: DedupOptions)
    requires !opts.caseSensitive
    requires ToLower(a.stockCode) == ToLower(b.stockCode)
    requires ToLower(a.description) == ToLower(b.description)
    requires ToLower(a.rawMatch) == ToLower(b.rawMatch)
    requires a.quantity == b.quantity && a.unitPrice == b.unitPrice && a.pattern == b.pattern
    ensures DedupKey(a, opts) == DedupKey(b, opts)
  {
    var n := |opts.compareFields|;
    var pa := KeyParts(a, opts.compareFields, opts.caseSensitive);
    var pb := KeyParts(b, opts.compareFields, opts.caseSensitive);
    forall i | 0 <= i < n
      ensures pa[i] == pb[i]
    {
      match opts.compareFields[i]
      case StockCode =>
      case Description =>
      case Quantity =>
      case UnitPrice =>
      case Source =>
      case RawMatch =>
      case Missing =>
    }
    assert pa == pb;
  }

  /** `removeDuplicates(extractedData, options)`; `None` is anything that is not an array. */
  method RemoveDuplicates(data: Option<seq<Item>>, opts: DedupOptions) returns (unique: seq<Item>)
    ensures data.None? ==> unique == []
    ensures data.Some? ==> unique == KeepFirst(data.value, KeyFn(opts), {})
    ensures data.Some? ==> IsSubsequence(unique, data.value)
    ensures data.Some? ==> KeysOf(unique, KeyFn(opts)) == KeysOf(data.value, KeyFn(opts))
    ensures DistinctKeys(unique, KeyFn(opts))
  {
    if data.None? {
      return [];
    }
    var items := data.value;
    var seen: set<string> := {};
    unique := [];
    for i := 0 to |items|
      invariant unique == KeepFirst(items[..i], KeyFn(opts), {})
      invariant seen == KeysOf(items[..i], KeyFn(opts))
    {
      seen, unique := VisitItem(items, i, opts, seen, unique);
    }
    assert items[..|items|] == items;
    KeepFirstFromScratch(items, KeyFn(opts));
  }

  /** The filter callback of `removeDuplicates` on item `i`: a new key is
      recorded and the item kept, a key already seen drops it. */
  method VisitItem(items: seq<Item>, i: nat, opts: DedupOptions, seen0: set<string>, unique0: seq<Item>)
    returns (seen: set<string>, unique: seq<Item>)
    requires i < |items|
    requires unique0 == KeepFirst(items[..i], KeyFn(opts), {})
    requires seen0 == KeysOf(items[..i], KeyFn(opts))
    ensures unique == KeepFirst(items[..i + 1], KeyFn(opts), {})
    ensures seen == KeysOf(items[..i + 1], KeyFn(opts))
  {
    var key := DedupKey(items[i], opts);
    DedupStep(items, i, opts);
    seen, unique := seen0, unique0;
    if key !in seen {
      seen := seen + {key};
      unique := unique + [items[i]];
    }
  }

  /** One step of the `removeDuplicates` loop: the next item is kept exactly
      when its key is new, and its key joins the seen keys. */
  lemma DedupStep(items: seq<Item>, i: nat, opts: DedupOptions)
    requires i < |items|
    ensures var key := DedupKey(items[i], opts);
      && KeepFirst(items[..i + 1], KeyFn(opts), {}) ==
         (if key in KeysOf(items[..i], KeyFn(opts)) then KeepFirst(items[..i], KeyFn(opts), {})
          else KeepFirst(items[..i], KeyFn(opts), {}) + [items[i]])
      && KeysOf(items[..i + 1], KeyFn(opts)) == KeysOf(items[..i], KeyFn(opts)) + {key}
  {
    assert items[..i + 1] == items[..i] + [items[i]];
    KeepFirstSnoc(items[..i], items[i], KeyFn(opts));
    KeysOfAppend(items[..i], [items[i]], KeyFn(opts));
    assert KeysOf([items[i]], KeyFn(opts)) == {DedupKey(items[i], opts)};
  }

  /** How many of the matches `ms` the loop looks at: at most `MatchCap`. */
  function CapCount(ms: seq<Match>): (n: nat)
    ensures n <= MatchCap && n <= |ms|
    ensures |ms| <= MatchCap ==> n == |ms|
  {
    if |ms| <= MatchCap then |ms| else MatchCap
  }

  /** The valid items that the first `n` matches of `ms`, of pattern `index`,
      yield, in match order: at most one per match, each tagged with its
      pattern and valid. */
  function AcceptedItems(ms: seq<Match>, n: nat, index: nat, strict: bool): (r: seq<Item>)
    requires n <= |ms|
    ensures |r| <= n
    ensures forall i :: 0 <= i < |r| ==> r[i].pattern == index + 1 && ValidateItem(Some(r[i]), strict)
  {
    if n == 0 then []
    else
      var init := AcceptedItems(ms, n - 1, index, strict);
      var item := ExtractItemFromMatch(ms[n - 1], index);
      KeepIfValid(init, item, n, index, strict);
      if item.Some? && ValidateItem(item, strict) then init + [item.value] else init
  }

  /** One more candidate keeps the bounds and the validity of the kept items. */
  lemma KeepIfValid(init: seq<Item>, item: Option<Item>, n: nat, index: nat, strict: bool)
    requires |init| < n
    requires forall i :: 0 <= i < |init| ==> init[i].pattern == index + 1 && ValidateItem(Some(init[i]), strict)
    requires item.Some? ==> item.value.pattern == index + 1
    ensures var r := if item.Some? && ValidateItem(item, strict) then init + [item.value] else init;
      |r| <= n && forall i :: 0 <= i < |r| ==> r[i].pattern == index + 1 && ValidateItem(Some(r[i]), strict)
  {
  }

  /** The valid items of the first `n` patterns, pattern by pattern, before deduplication. */
  function CandidateItems(clean: string, patterns: seq<Regex>, n: nat, strict: bool,
                          exec: (Regex, string) -> seq<Match>): (r: seq<Item>)
    requires n <= |patterns|
    ensures |r| <= 1000 * n
    ensures forall p :: CountRank(r, PatternOf, p) <= MatchCap
    ensures forall i :: 0 <= i < |r| ==> 1 <= r[i].pattern <= n && ValidateItem(Some(r[i]), strict)
    ensures OrderedBy(r, PatternOf)
  {
    if n == 0 then []
    else
      var before := CandidateItems(clean, patterns, n - 1, strict, exec);
      var ms := exec(patterns[n - 1], clean);
      var last := AcceptedItems(ms, CapCount(ms), n - 1, strict);
      ConcatOrdered(before, last, n);
      ConcatCounts(before, last, n);
      before + last
  }

  /** The items of one more pattern, at most `MatchCap` of them, keep every
      pattern's count within `MatchCap`. */
  lemma ConcatCounts(before: seq<Item>, last: seq<Item>, n: int)
    requires forall p :: CountRank(before, PatternOf, p) <= MatchCap
    requires forall i :: 0 <= i < |before| ==> before[i].pattern < n
    requires forall i :: 0 <= i < |last| ==> last[i].pattern == n
    requires |last| <= MatchCap
    ensures forall p :: CountRank(before + last, PatternOf, p) <= MatchCap
  {
    forall p
      ensures CountRank(before + last, PatternOf, p) <= MatchCap
    {
      CountRankAppend(before, last, PatternOf, p);
      if p == n {
        CountRankNone(before, PatternOf, p);
      } else {
        CountRankNone(last, PatternOf, p);
      }
    }
  }

  /** Items of one more pattern, appended after the items of the earlier ones,
      keep the pattern order. */
  lemma ConcatOrdered(before: seq<Item>, last: seq<Item>, n: int)
    requires OrderedBy(before, PatternOf)
    requires forall i :: 0 <= i < |before| ==> before[i].pattern <= n
    requires forall i :: 0 <= i < |last| ==> last[i].pattern == n
    ensures OrderedBy(before + last, PatternOf)
  {
    var r := before + last;
    forall i, j | 0 <= i < j < |r|
      ensures r[i].pattern <= r[j].pattern
    {
      if j < |before| {
        assert r[i] == before[i] && r[j] == before[j];
      } else if i >= |before| {
        assert r[i] == last[i - |before|] && r[j] == last[j - |before|];
      } else {
        assert r[i] == before[i] && r[j] == last[j - |before|];
      }
    }
  }

  /** What `parseTextForItems(text, { strictMode, customPatterns })` returns;
      `None` is anything that is not a string. */
  function ParsedItems(text: Option<string>, strict: bool, customPatterns: seq<Regex>,
                       exec: (Regex, string) -> seq<Match>): seq<Item>
  {
    if text.None? || text.value == [] then []
    else
      var patterns := BuiltInPatterns + customPatterns;
      KeepFirst(CandidateItems(NormalizeText(text.value), patterns, |patterns|, strict, exec), KeyFn(DefaultDedup), {})
  }

  /** Deduplicating valid items leaves valid items, no two with the same
      default key. */
  lemma DedupKeepsValid(c: seq<Item>, strict: bool)
    requires forall i :: 0 <= i < |c| ==> ValidateItem(Some(c[i]), strict)
    ensures var items := KeepFirst(c, KeyFn(DefaultDedup), {});
      && (forall i :: 0 <= i < |items| ==> ValidateItem(Some(items[i]), strict))
      && DistinctKeys(items, KeyFn(DefaultDedup))
  {
    var items := KeepFirst(c, KeyFn(DefaultDedup), {});
    forall i | 0 <= i < |items|
      ensures ValidateItem(Some(items[i]), strict)
    {
      assert items[i] in c;
      var j :| 0 <= j < |c| && c[j] == items[i];
    }
    KeepFirstKeys(c, KeyFn(DefaultDedup), {});
  }

  /** Deduplicating valid candidates in pattern order keeps them valid and in
      pattern order, leaves no two with the same default key, and never adds any. */
  lemma DedupCandidates(c: seq<Item>, strict: bool)
    requires forall i :: 0 <= i < |c| ==> ValidateItem(Some(c[i]), strict)
    requires OrderedBy(c, PatternOf)
    ensures var items := KeepFirst(c, KeyFn(DefaultDedup), {});
      && (forall i :: 0 <= i < |items| ==> ValidateItem(Some(items[i]), strict))
      && DistinctKeys(items, KeyFn(DefaultDedup))
      && |items| <= |c|
      && OrderedBy(items, PatternOf)
  {
    DedupKeepsValid(c, strict);
    KeepFirstKeys(c, KeyFn(DefaultDedup), {});
    KeepFirstOrdered(c, KeyFn(DefaultDedup), {}, PatternOf);
  }

  /** Every returned item is valid, no two share a default key, each pattern
      contributes at most `MatchCap` items, and items come in pattern order. */
  lemma ParsedItemsProperties(text: Option<string>, strict: bool, customPatterns: seq<Regex>,
                              exec: (Regex, string) -> seq<Match>)
    ensures var items := ParsedItems(text, strict, customPatterns, exec);
      && (forall i :: 0 <= i < |items| ==> ValidateItem(Some(items[i]), strict))
      && DistinctKeys(items, KeyFn(DefaultDedup))
      && |items| <= 1000 * (|BuiltInPatterns| + |customPatterns|)
      && (forall p :: CountRank(items, PatternOf, p) <= MatchCap)
      && OrderedBy(items, PatternOf)
  {
    var items := ParsedItems(text, strict, customPatterns, exec);
    if text.Some? && text.value != [] {
      var patterns := BuiltInPatterns + customPatterns;
      var candidates := CandidateItems(NormalizeText(text.value), patterns, |patterns|, strict, exec);
      DedupCandidates(candidates, strict);
      forall p
        ensures CountRank(items, PatternOf, p) <= MatchCap
      {
        KeepFirstCount(candidates, KeyFn(DefaultDedup), {}, PatternOf, p);
      }
    } else {
      forall p
        ensures CountRank(items, PatternOf, p) <= MatchCap
      {
      }
    }
  }

  /** `parseTextForItems`: normalise, run every pattern over the text up to
      `MatchCap` matches each, keep the valid items, then deduplicate. */
  method ParseTextForItems(text: Option<string>, strict: bool, customPatterns: seq<Regex>,
                           exec: (Regex, string) -> seq<Match>) returns (items: seq<Item>)
    ensures items == ParsedItems(text, strict, customPatterns, exec)
    ensures forall i :: 0 <= i < |items| ==> ValidateItem(Some(items[i]), strict)
    ensures DistinctKeys(items, KeyFn(DefaultDedup))
    ensures |items| <= 1000 * (|BuiltInPatterns| + |customPatterns|)
    ensures forall p :: CountRank(items, PatternOf, p) <= MatchCap
    ensures OrderedBy(items, PatternOf)
  {
    if text.None? || text.value == [] {
      return [];
    }
    var clean := NormalizeText(text.value);
    var patterns := BuiltInPatterns + customPatterns;
    var found := RunPatterns(clean, patterns, strict, exec);
    ParsedItemsProperties(text, strict, customPatterns, exec);
    items := RemoveDuplicates(Some(found), DefaultDedup);
  }

  /** The `for` loop over the patterns: each one's accepted matches, in
      pattern order. */
  method RunPatterns(clean: string, patterns: seq<Regex>, strict: bool,
                     exec: (Regex, string) -> seq<Match>) returns (found: seq<Item>)
    ensures found == CandidateItems(clean, patterns, |patterns|, strict, exec)
  {
    found := [];
    for index := 0 to |patterns|
      invariant found == CandidateItems(clean, patterns, index, strict, exec)
    {
      var accepted := AcceptMatches(exec(patterns[index], clean), index, strict);
      found := found + accepted;
    }
  }

  /** The inner loop of `parseTextForItems`: the valid items of at most
      `MatchCap` matches of pattern `index`. */
  method AcceptMatches(ms: seq<Match>, index: nat, strict: bool) returns (accepted: seq<Item>)
    ensures accepted == AcceptedItems(ms, CapCount(ms), index, strict)
  {
    accepted := [];
    var matchCount := 0;
    while matchCount < |ms| && matchCount < MatchCap
      invariant matchCount <= |ms| && matchCount <= MatchCap
      invariant accepted == AcceptedItems(ms, matchCount, index, strict)
    {
      var item := ExtractItemFromMatch(ms[matchCount], index);
      if item.Some? && ValidateItem(item, strict) {
        accepted := accepted + [item.value];
      }
      matchCount := matchCount + 1;
    }
  }

}
