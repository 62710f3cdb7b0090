/** `exportData` of `pdfProcessor.js`: items rendered as CSV or as plain-text
    blocks. JSON output is `JSON.stringify` and is not modelled: the model
    only records that the items were handed to it. */
module Export {
  import opened Wrappers
  import opened JsString
  import opened JsNumber
  import opened Extraction

  /** What `exportData` returns: a string, or the items given to `JSON.stringify`. */
  datatype Exported = Text(text: string) | JsonOf(items: seq<Item>)

  /** `Object.keys(item)` for an extracted item. */
  const Keys := ["stockCode", "description", "quantity", "unitPrice", "source", "rawMatch"]

  /** The header line: the keys joined with `,`. */
  const CsvHeader := Join(Keys, ",")

  /** `Object.values(item).map(String)`: the fields in key order. */
  function Fields(item: Item): (r: seq<string>)
    ensures |r| == 6
  {
    [item.stockCode, item.description, IntNumToString(item.quantity), CentsNumToString(item.unitPrice),
     SourceText(item.pattern), item.rawMatch]
  }

  /** The number fields read back as the item's numbers, and the source
      field names its pattern. */
  lemma FieldsReadBack(item: Item)
    ensures var r := Fields(item);
      && |r| == |Keys|
      && r[4] == "pattern_" + NatToString(item.pattern)
      && (item.quantity.Val? ==> ParseInt(r[2]) == item.quantity)
      && (item.unitPrice.Val? ==> ParseFloat(r[3]).Some? && RoundToCents(ParseFloat(r[3]).value) == item.unitPrice.v)
  {
    var r := Fields(item);
    if item.quantity.Val? {
      assert r[2] == IntToString(item.quantity.v);
      IntToStringRoundTrip(item.quantity.v);
    }
    if item.unitPrice.Val? {
      assert r[3] == CentsToString(item.unitPrice.v);
      CentsToStringRoundTrip(item.unitPrice.v);
    }
  }

  /** `s.replace(/"/g, '""')`. */
  function Escape(s: string): (r: string)
    ensures '\n' !in s ==> '\n' !in r
    decreases |s|
  {
    if s == [] then []
    else (if s[0] == '"' then "\"\"" else [s[0]]) + Escape(s[1..])
  }

  /** A CSV value: the escaped text in double quotes. */
  function Quote(s: string): string {
    "\"" + Escape(s) + "\""
  }

  /** Each string quoted. */
  function QuoteAll(fs: seq<string>): (r: seq<string>)
    ensures |r| == |fs|
    ensures forall k :: 0 <= k < |fs| ==> r[k] == Quote(fs[k])
  {
    if fs == [] then [] else [Quote(fs[0])] + QuoteAll(fs[1..])
  }

  /** One CSV line: the quoted values joined with `,`. */
  function Row(item: Item): string {
    Join(QuoteAll(Fields(item)), ",")
  }

  /** `items.map(row)`. */
  function Rows(items: seq<Item>): (r: seq<string>)
    ensures |r| == |items|
    ensures forall k :: 0 <= k < |items| ==> r[k] == Row(items[k])
  {
    if items == [] then [] else [Row(items[0])] + Rows(items[1..])
  }

  /** The `csv` branch: the header line, then one line per item. */
  function Csv(items: seq<Item>): string {
    Join([CsvHeader] + Rows(items), "\n")
  }

  /** The plain-text block of one item: its five lines, each ended by a line
      break except the closing `---`. */
  function Block(item: Item): string {
    var ls := BlockLines(item);
    ls[0] + "\n" + ls[1] + "\n" + ls[2] + "\n" + ls[3] + "\n" + ls[4]
  }

  /** The lines of one item's block: labelled code, description, quantity and
      price, then `---`. */
  function BlockLines(item: Item): (r: seq<string>)
    ensures |r| == 5
  {
    ["Stock Code: " + item.stockCode, "Description: " + item.description,
     "Quantity: " + IntNumToString(item.quantity), "Unit Price: $" + CentsNumToString(item.unitPrice), "---"]
  }

  /** `items.map(block)`. */
  function Blocks(items: seq<Item>): (r: seq<string>)
    ensures |r| == |items|
    ensures forall k :: 0 <= k < |items| ==> r[k] == Block(items[k])
  {
    if items == [] then [] else [Block(items[0])] + Blocks(items[1..])
  }

  /** The `txt` branch: the blocks joined with a line break. */
  function Txt(items: seq<Item>): string {
    Join(Blocks(items), "\n")
  }

  /** `exportData(items, format)`. `None` is anything that is not an array. */
  function ExportData(items: Option<seq<Item>>, format: string): (r: Result<Exported, string>)
    ensures items.None? || items.value == [] ==> r == Success(Text(if format == "json" then "[]" else ""))
    ensures items.Some? && items.value != [] ==>
      && (ToLower(format) == "json" ==> r == Success(JsonOf(items.value)))
      && (ToLower(format) == "csv" ==> r == Success(Text(Csv(items.value))))
      && (ToLower(format) == "txt" ==> r == Success(Text(Txt(items.value))))
      && (r.Failure? <==> ToLower(format) !in {"json", "csv", "txt"})
      && (r.Failure? ==> r.error == "Unsupported format: " + format)
  {
    if items.None? || items.value == [] then Success(Text(if format == "json" then "[]" else ""))
    else
      var f := ToLower(format);
      if f == "json" then Success(JsonOf(items.value))
      else if f == "csv" then Success(Text(Csv(items.value)))
      else if f == "txt" then Success(Text(Txt(items.value)))
      else Failure("Unsupported format: " + format)
  }

  /** Only the exact lower-case `json` gives `[]` for no items; any other
      spelling of it, such as `JSON`, gives the empty string for no items
      although it selects JSON output for a non-empty list. */
  lemma EmptyJsonIsCaseSensitive(format: string, items: seq<Item>)
    requires ToLower(format) == "json" && format != "json" && items != []
    ensures ExportData(Some([]), format) == Success(Text(""))
    ensures ExportData(Some(items), format) == Success(JsonOf(items))
  {
  }

  /** Reads a quoted CSV value after its opening quote: doubled quotes stand
      for one quote, a single quote ends the value. Gives the value and the
      text after its closing quote. */
  function ReadQuoted(s: string): (r: Option<(string, string)>)
    ensures r.Some? ==> |r.value.1| < |s|
    decreases |s|
  {
    if s == [] then None
    else if s[0] == '"' then
      if |s| >= 2 && s[1] == '"' then
        match ReadQuoted(s[2..])
        case None => None
        case Some((v, rest)) => Some(("\"" + v, rest))
      else Some(("", s[1..]))
    else
      match ReadQuoted(s[1..])
      case None => None
      case Some((v, rest)) => Some(([s[0]] + v, rest))
  }

  /** Reads a CSV line of quoted values separated by `,`. */
  function ParseRow(s: string): Option<seq<string>>
    decreases |s|
  {
    if s == [] || s[0] != '"' then None
    else match ReadQuoted(s[1..])
      case None => None
      case Some((v, rest)) =>
        if rest == [] then Some([v])
        else if rest[0] != ',' then None
        else match ParseRow(rest[1..])
          case None => None
          case Some(vs) => Some([v] + vs)
  }

  /** Reading an escaped value back gives the value and what follows its
      closing quote. */
  lemma {:induction false} ReadEscaped(x: string, rest: string)
    requires rest == [] || rest[0] != '"'
    ensures ReadQuoted(Escape(x) + "\"" + rest) == Some((x, rest))
    decreases |x|
  {
    if x == [] {
      assert Escape(x) + "\"" + rest == "\"" + rest;
    } else {
      ReadEscaped(x[1..], rest);
      var tail := Escape(x[1..]) + "\"" + rest;
      assert Escape(x) + "\"" + rest == (if x[0] == '"' then "\"\"" else [x[0]]) + tail;
      ReadQuotedStep(x[0], tail, x[1..], rest);
      assert [x[0]] + x[1..] == x;
    }
  }

  /** One escaped character in front of a quoted value is read back. */
  lemma ReadQuotedStep(c: char, tail: string, v: string, rest: string)
    requires ReadQuoted(tail) == Some((v, rest))
    ensures ReadQuoted((if c == '"' then "\"\"" else [c]) + tail) == Some(([c] + v, rest))
  {
    if c == '"' {
      assert ("\"\"" + tail)[2..] == tail;
    } else {
      assert ([c] + tail)[1..] == tail;
    }
  }

  /** A line of quoted values reads back as the values. */
  lemma {:induction false} ParseQuotedRow(vs: seq<string>)
    requires |vs| >= 1
    ensures ParseRow(Join(QuoteAll(vs), ",")) == Some(vs)
    decreases |vs|
  {
    if |vs| == 1 {
      JoinQuotedOne(vs);
      ParseQuotedLast(vs[0]);
    } else {
      var more := Join(QuoteAll(vs[1..]), ",");
      JoinQuotedCons(vs);
      ParseQuotedRow(vs[1..]);
      ParseQuotedNext(vs[0], vs[1..], more);
      assert [vs[0]] + vs[1..] == vs;
    }
  }

  lemma JoinQuotedOne(vs: seq<string>)
    requires |vs| == 1
    ensures Join(QuoteAll(vs), ",") == "\"" + (Escape(vs[0]) + "\"" + "") && [vs[0]] == vs
  {
    var q := QuoteAll(vs);
    assert Join(q, ",") == Quote(vs[0]);
    Regroup("\"", Escape(vs[0]), "\"", "", "");
  }

  /** The first quoted value, then `,` and the rest of the line. */
  lemma JoinQuotedCons(vs: seq<string>)
    requires |vs| >= 2
    ensures Join(QuoteAll(vs), ",") == "\"" + (Escape(vs[0]) + "\"" + ("," + Join(QuoteAll(vs[1..]), ",")))
  {
    var q := QuoteAll(vs);
    assert q[1..] == QuoteAll(vs[1..]);
    assert Join(q, ",") == Quote(vs[0]) + "," + Join(q[1..], ",");
    Regroup("\"", Escape(vs[0]), "\"", ",", Join(q[1..], ","));
  }

  lemma Regroup<T>(a: seq<T>, b: seq<T>, c: seq<T>, d: seq<T>, e: seq<T>)
    ensures a + b + c + d + e == a + (b + c + (d + e))
  {
  }

  /** The last quoted value of a line reads back alone. */
  lemma ParseQuotedLast(v: string)
    ensures ParseRow("\"" + (Escape(v) + "\"" + "")) == Some([v])
  {
    var x := Escape(v) + "\"" + "";
    ReadEscaped(v, "");
    assert ("\"" + x)[1..] == x;
  }

  /** A quoted value followed by `,` and a line that reads back as `tail`. */
  lemma ParseQuotedNext(v: string, tail: seq<string>, more: string)
    requires ParseRow(more) == Some(tail)
    ensures ParseRow("\"" + (Escape(v) + "\"" + ("," + more))) == Some([v] + tail)
  {
    var x := Escape(v) + "\"" + ("," + more);
    ReadEscaped(v, "," + more);
    assert ("\"" + x)[1..] == x;
    assert ("," + more)[1..] == more;
  }

  /** `String(n)` of a number is on one line. */
  lemma NumbersOnOneLine(n: Num)
    ensures '\n' !in IntNumToString(n) && '\n' !in CentsNumToString(n)
  {
    if n.Val? {
      var v := n.v;
      var ds := NatToString(Abs(v));
      assert forall k :: 0 <= k < |ds| ==> IsDigit(ds[k]);
      assert '\n' !in ds;
      assert IntToString(v) == SignText(v < 0) + ds;
      var ip := NatToString(Abs(v) / 100);
      assert forall k :: 0 <= k < |ip| ==> IsDigit(ip[k]);
      assert '\n' !in ip;
    }
  }

  /** No value of an item contains a line break. */
  predicate OneLine(item: Item) {
    '\n' !in item.stockCode && '\n' !in item.description && '\n' !in item.rawMatch
  }

  lemma RowOneLine(item: Item)
    requires OneLine(item)
    ensures '\n' !in Row(item)
  {
    NumbersOnOneLine(item.quantity);
    var ds := NatToString(item.pattern);
    assert forall k :: 0 <= k < |ds| ==> IsDigit(ds[k]);
    assert '\n' !in SourceText(item.pattern);
    var fs := Fields(item);
    JoinAvoids(QuoteAll(fs), ",", '\n');
  }

  lemma HeaderOneLine()
    ensures '\n' !in CsvHeader
  {
    forall j | 0 <= j < |Keys|
      ensures '\n' !in Keys[j]
    {
    }
    JoinAvoids(Keys, ",", '\n');
  }

  /** The CSV text splits into the header and one line per item, and each
      item line reads back as that item's values. */
  lemma CsvLines(items: seq<Item>)
    requires forall k :: 0 <= k < |items| ==> OneLine(items[k])
    ensures var lines := Split(Csv(items), '\n');
      && |lines| == |items| + 1
      && lines[0] == CsvHeader
      && forall k :: 0 <= k < |items| ==> ParseRow(lines[k + 1]) == Some(Fields(items[k]))
  {
    var parts := [CsvHeader] + Rows(items);
    forall k | 0 <= k < |parts|
      ensures '\n' !in parts[k]
    {
      if k == 0 {
        HeaderOneLine();
      } else {
        assert parts[k] == Row(items[k - 1]);
        RowOneLine(items[k - 1]);
      }
    }
    SplitJoin(parts, '\n');
    forall k | 0 <= k < |items|
      ensures ParseRow(parts[k + 1]) == Some(Fields(items[k]))
    {
      ParseQuotedRow(Fields(items[k]));
    }
  }

  /** All the lines of the plain-text export, block after block. */
  function TxtLines(items: seq<Item>): (r: seq<string>)
    ensures |r| == 5 * |items|
  {
    if items == [] then [] else BlockLines(items[0]) + TxtLines(items[1..])
  }

  /** Lines `5k` to `5k + 4` are the block of item `k`. */
  lemma {:induction false} TxtLinesAt(items: seq<Item>, k: nat)
    requires k < |items|
    ensures TxtLines(items)[5 * k..5 * k + 5] == BlockLines(items[k])
    decreases k
  {
    var b := BlockLines(items[0]);
    var rest := TxtLines(items[1..]);
    assert TxtLines(items) == b + rest;
    if k > 0 {
      TxtLinesAt(items[1..], k - 1);
      SliceAfterPrefix(b, rest, 5 * k, 5 * k + 5);
    } else {
      SliceAfterPrefix(b, rest, 0, 0);
    }
  }

  /** Slices of `b + rest`: the first `|b|` elements are `b`, and a slice
      past them is a slice of `rest`. */
  lemma SliceAfterPrefix<T>(b: seq<T>, rest: seq<T>, i: nat, j: nat)
    requires i == j == 0 || |b| <= i <= j <= |b| + |rest|
    ensures (b + rest)[..|b|] == b
    ensures |b| <= i ==> (b + rest)[i..j] == rest[i - |b|..j - |b|]
  {
  }

  lemma BlockOneLine(item: Item)
    requires '\n' !in item.stockCode && '\n' !in item.description
    ensures forall j :: 0 <= j < 5 ==> '\n' !in BlockLines(item)[j]
  {
    NumbersOnOneLine(item.quantity);
    NumbersOnOneLine(item.unitPrice);
    var b := BlockLines(item);
    assert '\n' !in "Stock Code: " && '\n' !in "Description: " && '\n' !in "Quantity: ";
    assert '\n' !in "Unit Price: $" && '\n' !in "---";
    assert '\n' !in b[0] && '\n' !in b[1] && '\n' !in b[2] && '\n' !in b[3] && '\n' !in b[4];
  }

  /** Codes and descriptions on one line give lines without line breaks. */
  lemma {:induction false} TxtLinesOneLine(items: seq<Item>)
    requires forall k :: 0 <= k < |items| ==> '\n' !in items[k].stockCode && '\n' !in items[k].description
    ensures forall j :: 0 <= j < |TxtLines(items)| ==> '\n' !in TxtLines(items)[j]
    decreases |items|
  {
    if items != [] {
      TxtLinesOneLine(items[1..]);
      BlockOneLine(items[0]);
      var b := BlockLines(items[0]);
      var rest := TxtLines(items[1..]);
      assert TxtLines(items) == b + rest;
      LinesAvoidConcat(b, rest, '\n');
    }
  }

  /** Lines without `c`, followed by more lines without `c`. */
  lemma LinesAvoidConcat(b: seq<string>, rest: seq<string>, c: char)
    requires forall j :: 0 <= j < |b| ==> c !in b[j]
    requires forall j :: 0 <= j < |rest| ==> c !in rest[j]
    ensures forall j :: 0 <= j < |b + rest| ==> c !in (b + rest)[j]
  {
    forall j | 0 <= j < |b + rest|
      ensures c !in (b + rest)[j]
    {
      if j >= |b| {
        assert (b + rest)[j] == rest[j - |b|];
      }
    }
  }

  lemma BlockIsLines(item: Item)
    ensures Block(item) == Join(BlockLines(item), "\n")
  {
    var ls := BlockLines(item);
    FiveLines(ls[0], ls[1], ls[2], ls[3], ls[4]);
    assert ls == [ls[0], ls[1], ls[2], ls[3], ls[4]];
  }

  lemma FiveLines(a: string, b: string, c: string, d: string, e: string)
    ensures a + "\n" + b + "\n" + c + "\n" + d + "\n" + e == Join([a, b, c, d, e], "\n")
  {
    var ls := [a, b, c, d, e];
    assert ls[1..] == [b, c, d, e] && ls[2..] == [c, d, e] && ls[3..] == [d, e] && ls[4..] == [e];
    assert Join([d, e], "\n") == d + "\n" + e by { assert [d, e][1..] == [e]; }
    assert Join([c, d, e], "\n") == c + "\n" + (d + "\n" + e) by { assert [c, d, e][1..] == [d, e]; }
    assert Join([b, c, d, e], "\n") == b + "\n" + (c + "\n" + (d + "\n" + e)) by { assert [b, c, d, e][1..] == [c, d, e]; }
  }

  lemma {:induction false} TxtIsLines(items: seq<Item>)
    requires |items| >= 1
    ensures Txt(items) == Join(TxtLines(items), "\n")
    decreases |items|
  {
    BlockIsLines(items[0]);
    var bs := Blocks(items);
    if |items| > 1 {
      TxtIsLines(items[1..]);
      assert bs[1..] == Blocks(items[1..]);
      JoinAppend(BlockLines(items[0]), TxtLines(items[1..]), "\n");
    } else {
      assert items[1..] == [];
      assert TxtLines(items) == BlockLines(items[0]) + [];
      assert BlockLines(items[0]) + [] == BlockLines(items[0]);
      assert Txt(items) == bs[0];
    }
  }

  /** With no line break in codes and descriptions, the plain-text export has
      five lines per item: its code, description, quantity and price, and a
      closing `---`. */
  lemma TxtBlocks(items: seq<Item>)
    requires |items| >= 1
    requires forall k :: 0 <= k < |items| ==> '\n' !in items[k].stockCode && '\n' !in items[k].description
    ensures var lines := Split(Txt(items), '\n');
      && |lines| == 5 * |items|
      && forall k :: 0 <= k < |items| ==> lines[5 * k..5 * k + 5] == BlockLines(items[k])
  {
    TxtIsLines(items);
    TxtLinesOneLine(items);
    SplitJoin(TxtLines(items), '\n');
    forall k | 0 <= k < |items|
      ensures TxtLines(items)[5 * k..5 * k + 5] == BlockLines(items[k])
    {
      TxtLinesAt(items, k);
    }
  }
}
