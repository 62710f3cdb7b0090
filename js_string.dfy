/** The JavaScript string built-ins the extractor relies on, over strings of
    Unicode scalar values: the `\s` and `\w` regular-expression classes,
    `trim`, ASCII case mapping, `replace(/X+/g, ' ')`, `join` and `split`. */
module JsString {

  /** White space as `\s` and `String.prototype.trim` see it: the WhiteSpace
      and LineTerminator code points of ECMAScript. */
  predicate IsSpace(c: char) {
    c == ' ' || c == '\t' || c == '\n' || c == '\r' || c == '\U{000B}' || c == '\U{000C}'
    || c == '\U{00A0}' || c == '\U{1680}' || ('\U{2000}' <= c <= '\U{200A}')
    || c == '\U{2028}' || c == '\U{2029}' || c == '\U{202F}' || c == '\U{205F}'
    || c == '\U{3000}' || c == '\U{FEFF}'
  }

  /** The class `[\r\n]`. */
  predicate IsLineBreak(c: char) {
    c == '\r' || c == '\n'
  }

  predicate IsDigit(c: char) {
    '0' <= c <= '9'
  }

  /** The class `\w` (ASCII letters, digits and underscore). */
  predicate IsWordChar(c: char) {
    'A' <= c <= 'Z' || 'a' <= c <= 'z' || IsDigit(c) || c == '_'
  }

  function UpperChar(c: char): char {
    if 'a' <= c <= 'z' then (c as int - 32) as char else c
  }

  function LowerChar(c: char): char {
    if 'A' <= c <= 'Z' then (c as int + 32) as char else c
  }

  /** `toUpperCase`, restricted to ASCII letters. */
  function ToUpper(s: string): (r: string)
    ensures |r| == |s|
    ensures forall i :: 0 <= i < |s| ==> r[i] == UpperChar(s[i])
    ensures forall i :: 0 <= i < |r| ==> !('a' <= r[i] <= 'z')
  {
    seq(|s|, i requires 0 <= i < |s| => UpperChar(s[i]))
  }

  /** `toLowerCase`, restricted to ASCII letters. */
  function ToLower(s: string): (r: string)
    ensures |r| == |s|
    ensures forall i :: 0 <= i < |s| ==> r[i] == LowerChar(s[i])
    ensures forall i :: 0 <= i < |r| ==> !('A' <= r[i] <= 'Z')
  {
    seq(|s|, i requires 0 <= i < |s| => LowerChar(s[i]))
  }

  /** Drops the longest prefix whose characters satisfy `p`. */
  function DropWhile(s: string, p: char -> bool): (r: string)
    ensures |r| <= |s| && r == s[|s| - |r|..]
    ensures r == [] || !p(r[0])
    ensures forall i :: 0 <= i < |s| - |r| ==> p(s[i])
    ensures s != [] && p(s[0]) ==> |r| < |s|
    decreases |s|
  {
    if s != [] && p(s[0]) then
      var r := DropWhile(s[1..], p);
      assert s[1..][|s| - 1 - |r|..] == s[|s| - |r|..];
      assert forall i :: 1 <= i < |s| - |r| ==> s[i] == s[1..][i - 1];
      r
    else s
  }

  /** Drops the longest suffix whose characters satisfy `p`. */
  function DropWhileEnd(s: string, p: char -> bool): (r: string)
    ensures |r| <= |s| && r == s[..|r|]
    ensures r == [] || !p(r[|r| - 1])
    ensures forall i :: |r| <= i < |s| ==> p(s[i])
    decreases |s|
  {
    if s != [] && p(s[|s| - 1]) then DropWhileEnd(s[..|s| - 1], p) else s
  }

  /** The longest prefix whose characters satisfy `p`. */
  function TakeWhile(s: string, p: char -> bool): (r: string)
    ensures |r| <= |s| && r == s[..|r|]
    ensures forall i :: 0 <= i < |r| ==> p(r[i])
    ensures |r| == |s| || !p(s[|r|])
    decreases |s|
  {
    if s != [] && p(s[0]) then [s[0]] + TakeWhile(s[1..], p) else []
  }

  /** No white space at either end. */
  predicate Trimmed(s: string) {
    s == [] || (!IsSpace(s[0]) && !IsSpace(s[|s| - 1]))
  }

  /** Every white-space character is a plain space, and no two are adjacent. */
  predicate SingleSpaced(s: string) {
    && (forall i :: 0 <= i < |s| && IsSpace(s[i]) ==> s[i] == ' ')
    && (forall i :: 0 < i < |s| && IsSpace(s[i]) ==> !IsSpace(s[i - 1]))
  }

  /** How many white-space characters open `s`. */
  function LeadingSpace(s: string): (n: nat)
    ensures n <= |s|
  {
    |s| - |DropWhile(s, IsSpace)|
  }

  /** `String.prototype.trim`. */
  function Trim(s: string): (r: string)
    ensures Trimmed(r)
    ensures |r| <= |s|
    ensures Trimmed(s) ==> r == s
  {
    DropWhileEnd(DropWhile(s, IsSpace), IsSpace)
  }

  /** `trim` keeps one slice of `s` and removes only the white space before
      and after it. */
  lemma TrimIsSlice(s: string)
    ensures var r, a := Trim(s), LeadingSpace(s);
      && a + |r| <= |s| && r == s[a..a + |r|]
      && (forall i :: 0 <= i < a ==> IsSpace(s[i]))
      && (forall i :: a + |r| <= i < |s| ==> IsSpace(s[i]))
  {
  }

  /** The slice half of `TrimIsSlice`, without the white-space facts. */
  lemma TrimSlice(s: string)
    ensures LeadingSpace(s) + |Trim(s)| <= |s|
    ensures Trim(s) == s[LeadingSpace(s)..LeadingSpace(s) + |Trim(s)|]
  {
    TrimIsSlice(s);
  }

  /** The characters of `s` that satisfy `p`, in order. */
  function Filter(s: string, p: char -> bool): (r: string)
    ensures |r| <= |s|
    ensures forall i :: 0 <= i < |r| ==> p(r[i])
    decreases |s|
  {
    if s == [] then []
    else if p(s[0]) then [s[0]] + Filter(s[1..], p)
    else Filter(s[1..], p)
  }

  predicate NotSpace(c: char) {
    !IsSpace(c)
  }

  /** The text of `s` without its white space. */
  function NonSpace(s: string): string {
    Filter(s, NotSpace)
  }

  lemma {:induction false} FilterAppend(a: string, b: string, p: char -> bool)
    ensures Filter(a + b, p) == Filter(a, p) + Filter(b, p)
    decreases |a|
  {
    if a != [] {
      assert (a + b)[0] == a[0] && (a + b)[1..] == a[1..] + b;
      FilterAppend(a[1..], b, p);
    } else {
      assert a + b == b;
    }
  }

  lemma {:induction false} FilterNone(s: string, p: char -> bool)
    requires forall i :: 0 <= i < |s| ==> !p(s[i])
    ensures Filter(s, p) == []
    decreases |s|
  {
    if s != [] {
      FilterNone(s[1..], p);
    }
  }

  /** Filtering twice is filtering once by both conditions. */
  lemma {:induction false} FilterFilter(s: string, p: char -> bool, q: char -> bool, pq: char -> bool)
    requires forall c :: pq(c) == (p(c) && q(c))
    ensures Filter(Filter(s, p), q) == Filter(s, pq)
    decreases |s|
  {
    if s != [] {
      FilterFilter(s[1..], p, q, pq);
      if p(s[0]) {
        var t := Filter(s[1..], p);
        assert ([s[0]] + t)[0] == s[0] && ([s[0]] + t)[1..] == t;
      }
    }
  }

  /** Filtering out everything before `a` and from `b` on leaves the filtered slice. */
  lemma FilterMiddle(s: string, a: nat, b: nat, p: char -> bool)
    requires a <= b <= |s|
    requires forall i :: 0 <= i < a ==> !p(s[i])
    requires forall i :: b <= i < |s| ==> !p(s[i])
    ensures Filter(s, p) == Filter(s[a..b], p)
  {
    var u := s[..b];
    FilterDropTail(s, b, p);
    FilterDropHead(u, a, p);
    SliceOfPrefix(s, a, b);
  }

  lemma SliceOfPrefix(s: string, a: nat, b: nat)
    requires a <= b <= |s|
    ensures s[..b][a..] == s[a..b]
  {
  }

  lemma FilterDropHead(s: string, a: nat, p: char -> bool)
    requires a <= |s|
    requires forall i :: 0 <= i < a ==> !p(s[i])
    ensures Filter(s, p) == Filter(s[a..], p)
  {
    var head := s[..a];
    assert s == head + s[a..];
    FilterAppend(head, s[a..], p);
    FilterNone(head, p);
  }

  lemma FilterDropTail(s: string, b: nat, p: char -> bool)
    requires b <= |s|
    requires forall i :: b <= i < |s| ==> !p(s[i])
    ensures Filter(s, p) == Filter(s[..b], p)
  {
    var tail := s[b..];
    assert s == s[..b] + tail;
    FilterAppend(s[..b], tail, p);
    FilterNone(tail, p);
    assert Filter(s[..b], p) + [] == Filter(s[..b], p);
  }

  /** `trim` removes white space only. */
  lemma TrimKeepsNonSpace(s: string)
    ensures NonSpace(Trim(s)) == NonSpace(s)
  {
    var a, r := LeadingSpace(s), Trim(s);
    TrimIsSlice(s);
    FilterMiddle(s, a, a + |r|, NotSpace);
  }

  /** `s.replace(/[P]+/g, ' ')`: every maximal run of characters of the
      class `p` becomes one space. */
  function ReplaceRuns(s: string, p: char -> bool): (r: string)
    decreases |s|
  {
    if s == [] then []
    else if p(s[0]) then " " + ReplaceRuns(DropWhile(s, p), p)
    else [s[0]] + ReplaceRuns(s[1..], p)
  }

  /** `s.replace(/\s+/g, ' ')`. */
  function CollapseSpaces(s: string): string {
    ReplaceRuns(s, IsSpace)
  }

  /** Leading characters of `a` that `p` accepts are all `DropWhile` sees of `a + b`
      when `a` holds one it rejects. */
  lemma {:induction false} DropWhileAppend(a: string, b: string, p: char -> bool)
    requires DropWhile(a, p) != []
    ensures DropWhile(a + b, p) == DropWhile(a, p) + b
    decreases |a|
  {
    assert (a + b)[0] == a[0];
    if p(a[0]) {
      assert (a + b)[1..] == a[1..] + b;
      DropWhileAppend(a[1..], b, p);
    }
  }

  /** A prefix that `p` accepts throughout is dropped whole. */
  lemma {:induction false} DropWhileSkipAll(a: string, b: string, p: char -> bool)
    requires forall i :: 0 <= i < |a| ==> p(a[i])
    ensures DropWhile(a + b, p) == DropWhile(b, p)
    decreases |a|
  {
    if a == [] {
      assert a + b == b;
    } else {
      assert (a + b)[0] == a[0] && (a + b)[1..] == a[1..] + b;
      DropWhileSkipAll(a[1..], b, p);
    }
  }

  /** The mirror of `DropWhileAppend` for `DropWhileEnd`. */
  lemma {:induction false} DropWhileEndAppend(a: string, b: string, p: char -> bool)
    requires DropWhileEnd(b, p) != []
    ensures DropWhileEnd(a + b, p) == a + DropWhileEnd(b, p)
    decreases |b|
  {
    var n := |a + b|;
    assert (a + b)[n - 1] == b[|b| - 1];
    if p(b[|b| - 1]) {
      assert (a + b)[..n - 1] == a + b[..|b| - 1];
      DropWhileEndAppend(a, b[..|b| - 1], p);
    }
  }

  /** `replace(/[P]+/g, ' ')` works piece by piece on two strings whose
      junction does not split a run. */
  lemma {:induction false} ReplaceRunsAppend(a: string, b: string, p: char -> bool)
    requires a == [] || b == [] || !p(a[|a| - 1]) || !p(b[0])
    ensures ReplaceRuns(a + b, p) == ReplaceRuns(a, p) + ReplaceRuns(b, p)
    decreases |a|
  {
    if a == [] {
      assert a + b == b;
    } else if p(a[0]) {
      var t := DropWhile(a, p);
      if t == [] {
        RunThenText(a, b, p);
      } else {
        assert t[|t| - 1] == a[|a| - 1];
        ReplaceRunsAppend(t, b, p);
        RunThenRest(a, b, p);
      }
    } else {
      ReplaceRunsAppend(a[1..], b, p);
      CharThenRest(a, b, p);
    }
  }

  /** A string that is one whole run, followed by text that starts no run. */
  lemma RunThenText(a: string, b: string, p: char -> bool)
    requires a != [] && p(a[0]) && DropWhile(a, p) == []
    requires b == [] || !p(b[0])
    ensures ReplaceRuns(a + b, p) == ReplaceRuns(a, p) + ReplaceRuns(b, p)
  {
    DropWhileSkipAll(a, b, p);
    assert (a + b)[0] == a[0];
    assert DropWhile(b, p) == b;
    assert ReplaceRuns(a, p) == " ";
  }

  /** The step of `ReplaceRunsAppend` for a leading run that does not end `a`. */
  lemma RunThenRest(a: string, b: string, p: char -> bool)
    requires a != [] && p(a[0]) && DropWhile(a, p) != []
    requires ReplaceRuns(DropWhile(a, p) + b, p) == ReplaceRuns(DropWhile(a, p), p) + ReplaceRuns(b, p)
    ensures ReplaceRuns(a + b, p) == ReplaceRuns(a, p) + ReplaceRuns(b, p)
  {
    var t := DropWhile(a, p);
    DropWhileAppend(a, b, p);
    assert (a + b)[0] == a[0];
    assert ReplaceRuns(a + b, p) == " " + ReplaceRuns(t + b, p);
    Reassociate(" ", ReplaceRuns(t, p), ReplaceRuns(b, p));
  }

  /** The step of `ReplaceRunsAppend` for a leading character outside the class. */
  lemma CharThenRest(a: string, b: string, p: char -> bool)
    requires a != [] && !p(a[0])
    requires ReplaceRuns(a[1..] + b, p) == ReplaceRuns(a[1..], p) + ReplaceRuns(b, p)
    ensures ReplaceRuns(a + b, p) == ReplaceRuns(a, p) + ReplaceRuns(b, p)
  {
    assert (a + b)[0] == a[0] && (a + b)[1..] == a[1..] + b;
    Reassociate([a[0]], ReplaceRuns(a[1..], p), ReplaceRuns(b, p));
  }

  lemma Reassociate(x: string, y: string, z: string)
    ensures x + (y + z) == x + y + z
  {
  }

  /** A whole run becomes one space. */
  lemma ReplaceRunsOfRun(w: string, p: char -> bool)
    requires w != [] && forall i :: 0 <= i < |w| ==> p(w[i])
    ensures ReplaceRuns(w, p) == " "
  {
    assert DropWhile(w, p) == [];
  }

  /** A maximal run of the class between two pieces of text becomes one space. */
  lemma RunBetween(a: string, w: string, b: string, p: char -> bool)
    requires a == [] || !p(a[|a| - 1])
    requires w != [] && forall i :: 0 <= i < |w| ==> p(w[i])
    requires b == [] || !p(b[0])
    ensures ReplaceRuns(a + w + b, p) == ReplaceRuns(a, p) + " " + ReplaceRuns(b, p)
  {
    assert a + w + b == a + (w + b);
    ReplaceRunsAppend(a, w + b, p);
    ReplaceRunsAppend(w, b, p);
    ReplaceRunsOfRun(w, p);
    Reassociate(ReplaceRuns(a, p), " ", ReplaceRuns(b, p));
  }

  /** `replace(/\s+/g, ' ')` turns a maximal run of white space between two
      pieces of text into exactly one space and handles each piece on its own. */
  lemma CollapseRun(a: string, w: string, b: string)
    requires a == [] || !IsSpace(a[|a| - 1])
    requires w != [] && forall i :: 0 <= i < |w| ==> IsSpace(w[i])
    requires b == [] || !IsSpace(b[0])
    ensures CollapseSpaces(a + w + b) == CollapseSpaces(a) + " " + CollapseSpaces(b)
  {
    RunBetween(a, w, b, IsSpace);
  }

  /** Collapsing keeps a last character that is not white space. */
  lemma CollapseLast(a: string)
    requires a != [] && !IsSpace(a[|a| - 1])
    ensures var c := CollapseSpaces(a); c != [] && c[|c| - 1] == a[|a| - 1]
  {
    var x := a[|a| - 1];
    assert a == a[..|a| - 1] + [x];
    ReplaceRunsAppend(a[..|a| - 1], [x], IsSpace);
    assert ReplaceRuns([x], IsSpace) == [x] + ReplaceRuns([], IsSpace);
  }

  /** Collapsing keeps a first character that is not white space. */
  lemma CollapseFirst(b: string)
    requires b != [] && !IsSpace(b[0])
    ensures var c := CollapseSpaces(b); c != [] && c[0] == b[0]
  {
  }

  /** A last character that `p` accepts survives the filter, and stays last. */
  lemma FilterKeepsLast(s: string, p: char -> bool)
    requires s != [] && p(s[|s| - 1])
    ensures var r := Filter(s, p); r != [] && r[|r| - 1] == s[|s| - 1]
  {
    var x := s[|s| - 1];
    assert s == s[..|s| - 1] + [x];
    FilterAppend(s[..|s| - 1], [x], p);
    assert Filter([x], p) == [x] + Filter([], p);
  }

  /** A first character that `p` accepts survives the filter, and stays first. */
  lemma FilterKeepsFirst(s: string, p: char -> bool)
    requires s != [] && p(s[0])
    ensures var r := Filter(s, p); r != [] && r[0] == s[0]
  {
  }

  /** Trimming two pieces of text joined by one space, when neither has
      white space next to that space, trims each piece. */
  lemma TrimJoin(x: string, y: string)
    requires x != [] && !IsSpace(x[|x| - 1])
    requires y != [] && !IsSpace(y[0])
    ensures Trim(x + " " + y) == Trim(x) + " " + Trim(y)
  {
    StripJoin(x, y, ' ', IsSpace);
  }

  /** Stripping the class `p` from both ends of `x + [sep] + y`, where `sep`
      is in the class and the characters next to it are not. */
  lemma StripJoin(x: string, y: string, sep: char, p: char -> bool)
    requires x != [] && !p(x[|x| - 1])
    requires y != [] && !p(y[0])
    requires p(sep)
    ensures DropWhileEnd(DropWhile(x + [sep] + y, p), p)
      == DropWhileEnd(DropWhile(x, p), p) + [sep] + DropWhileEnd(DropWhile(y, p), p)
  {
    var d := DropWhile(x, p);
    KeepsLast(x, p);
    KeepsFirst(y, p);
    Reassociate(x, [sep], y);
    DropWhileAppend(x, [sep] + y, p);
    Reassociate(d, [sep], y);
    DropWhileEndAppend(d + [sep], y, p);
  }

  /** Stripping the front of a string that ends outside the class leaves
      something, and the end is untouched. */
  lemma KeepsLast(x: string, p: char -> bool)
    requires x != [] && !p(x[|x| - 1])
    ensures var d := DropWhile(x, p); d != [] && DropWhileEnd(d, p) == d
  {
    var d := DropWhile(x, p);
    assert d != [];
    assert d[|d| - 1] == x[|x| - 1];
  }

  /** Stripping both ends of a string that starts outside the class leaves
      something, and the front is untouched. */
  lemma KeepsFirst(y: string, p: char -> bool)
    requires y != [] && !p(y[0])
    ensures DropWhile(y, p) == y && DropWhileEnd(y, p) != []
  {
    var e := DropWhileEnd(y, p);
    assert e != [];
  }

  lemma SingleSpacedSlice(s: string, a: nat, b: nat)
    requires a <= b <= |s|
    requires SingleSpaced(s)
    ensures SingleSpaced(s[a..b])
  {
    var t := s[a..b];
    forall i | 0 < i < |t| && IsSpace(t[i])
      ensures !IsSpace(t[i - 1])
    {
      assert t[i] == s[a + i] && t[i - 1] == s[a + i - 1];
    }
  }

  lemma TrimSingleSpaced(s: string)
    requires SingleSpaced(s)
    ensures SingleSpaced(Trim(s))
  {
    var t := DropWhile(s, IsSpace);
    SingleSpacedSlice(s, |s| - |t|, |s|);
    SingleSpacedSlice(t, 0, |Trim(s)|);
  }

  lemma PrependSingleSpaced(c: char, t: string)
    requires SingleSpaced(t)
    requires c == ' ' || !IsSpace(c)
    requires IsSpace(c) ==> t == [] || !IsSpace(t[0])
    ensures SingleSpaced([c] + t)
  {
    var s := [c] + t;
    forall i | 0 < i < |s|
      ensures s[i] == t[i - 1]
    {
    }
  }

  /** After `replace(/\s+/g, ' ')` every white-space character is a single space. */
  lemma {:induction false} CollapseSingleSpaced(s: string)
    ensures SingleSpaced(CollapseSpaces(s))
    ensures CollapseSpaces(s) != [] && IsSpace(CollapseSpaces(s)[0]) ==> s != [] && IsSpace(s[0])
    decreases |s|
  {
    if s == [] {
    } else if IsSpace(s[0]) {
      var t := DropWhile(s, IsSpace);
      CollapseSingleSpaced(t);
      PrependSingleSpaced(' ', CollapseSpaces(t));
    } else {
      CollapseSingleSpaced(s[1..]);
      PrependSingleSpaced(s[0], CollapseSpaces(s[1..]));
    }
  }

  /** Dropping leading white space leaves the non-space text alone. */
  lemma DropSpaceKeepsNonSpace(s: string)
    ensures NonSpace(DropWhile(s, IsSpace)) == NonSpace(s)
  {
    var t := DropWhile(s, IsSpace);
    var k := |s| - |t|;
    assert forall i :: 0 <= i < k ==> !NotSpace(s[i]);
    FilterSkip(s, k, NotSpace);
  }

  /** A prefix that `p` rejects throughout adds nothing to the filter. */
  lemma FilterSkip(s: string, k: nat, p: char -> bool)
    requires k <= |s|
    requires forall i :: 0 <= i < k ==> !p(s[i])
    ensures Filter(s, p) == Filter(s[k..], p)
  {
    assert s == s[..k] + s[k..];
    FilterAppend(s[..k], s[k..], p);
    FilterNone(s[..k], p);
  }

  /** `replace(/\s+/g, ' ')` keeps every non-space character, in order. */
  lemma {:induction false} CollapseKeepsNonSpace(s: string)
    ensures NonSpace(CollapseSpaces(s)) == NonSpace(s)
    decreases |s|
  {
    if s != [] {
      if IsSpace(s[0]) {
        var t := DropWhile(s, IsSpace);
        CollapseKeepsNonSpace(t);
        DropSpaceKeepsNonSpace(s);
        FilterAppend(" ", CollapseSpaces(t), NotSpace);
      } else {
        CollapseKeepsNonSpace(s[1..]);
        FilterAppend([s[0]], CollapseSpaces(s[1..]), NotSpace);
      }
    }
  }

  /** A string that is already single-spaced is left alone by `replace(/\s+/g, ' ')`. */
  lemma {:induction false} CollapseFixesSingleSpaced(s: string)
    requires SingleSpaced(s)
    ensures CollapseSpaces(s) == s
    decreases |s|
  {
    if s != [] {
      SingleSpacedSlice(s, 1, |s|);
      CollapseFixesSingleSpaced(s[1..]);
      if IsSpace(s[0]) {
        LoneSpace(s);
      } else {
        assert s == [s[0]] + s[1..];
      }
    }
  }

  /** In a single-spaced string, a leading white-space character is a lone
      `' '`. */
  lemma LoneSpace(s: string)
    requires SingleSpaced(s) && s != [] && IsSpace(s[0])
    ensures DropWhile(s, IsSpace) == s[1..] && s == " " + s[1..]
  {
    assert |s| == 1 || !IsSpace(s[1]);
    assert s[0] == ' ';
    DropOne(s, IsSpace);
    assert s == [s[0]] + s[1..];
  }

  /** A single leading character that `p` accepts is all `DropWhile` drops. */
  lemma DropOne(s: string, p: char -> bool)
    requires s != [] && p(s[0]) && (|s| == 1 || !p(s[1]))
    ensures DropWhile(s, p) == s[1..]
  {
    var t := s[1..];
    assert t == [] || !p(t[0]);
    assert DropWhile(t, p) == t;
  }

  /** `replace(/[\r\n]+/g, ' ')` changes nothing in a string without line breaks. */
  lemma {:induction false} NoLineBreakFixed(s: string)
    requires forall i :: 0 <= i < |s| ==> !IsLineBreak(s[i])
    ensures ReplaceRuns(s, IsLineBreak) == s
    decreases |s|
  {
    if s != [] {
      NoLineBreakFixed(s[1..]);
      assert s == [s[0]] + s[1..];
    }
  }

  /** `s.trim()` is empty exactly when every character of `s` is white space. */
  lemma TrimEmpty(s: string)
    ensures Trim(s) == [] <==> forall i :: 0 <= i < |s| ==> IsSpace(s[i])
  {
    var t := DropWhile(s, IsSpace);
    if t != [] {
      assert !IsSpace(s[|s| - |t|]);
    }
  }

  /** `parts.join(sep)`. */
  function Join(parts: seq<string>, sep: string): string
    decreases |parts|
  {
    if |parts| == 0 then ""
    else if |parts| == 1 then parts[0]
    else parts[0] + sep + Join(parts[1..], sep)
  }

  /** `s.split(sep)` for a one-character separator. */
  function Split(s: string, sep: char): (r: seq<string>)
    ensures |r| >= 1
    decreases |s|
  {
    if s == [] then [""]
    else if s[0] == sep then [""] + Split(s[1..], sep)
    else
      var rest := Split(s[1..], sep);
      [[s[0]] + rest[0]] + rest[1..]
  }

  lemma {:induction false} SplitWithout(a: string, sep: char)
    requires sep !in a
    ensures Split(a, sep) == [a]
    decreases |a|
  {
    if a != [] {
      SplitWithout(a[1..], sep);
      assert [a[0]] + a[1..] == a;
    }
  }

  lemma {:induction false} SplitAfter(a: string, b: string, sep: char)
    requires sep !in a
    ensures Split(a + [sep] + b, sep) == [a] + Split(b, sep)
    decreases |a|
  {
    if a == [] {
      assert a + [sep] + b == [sep] + b;
      assert ([sep] + b)[1..] == b;
    } else {
      var s := a + [sep] + b;
      assert s[0] == a[0] && s[1..] == a[1..] + [sep] + b;
      SplitAfter(a[1..], b, sep);
      assert [a[0]] + a[1..] == a;
    }
  }

  /** Splitting a joined list gives the list back, when no part contains the separator. */
  lemma {:induction false} SplitJoin(parts: seq<string>, sep: char)
    requires |parts| >= 1
    requires forall k :: 0 <= k < |parts| ==> sep !in parts[k]
    ensures Split(Join(parts, [sep]), sep) == parts
    decreases |parts|
  {
    if |parts| == 1 {
      SplitWithout(parts[0], sep);
    } else {
      SplitJoin(parts[1..], sep);
      SplitAfter(parts[0], Join(parts[1..], [sep]), sep);
      assert [parts[0]] + parts[1..] == parts;
    }
  }

  /** A character that occurs in no part and not in the separator does not
      occur in the joined string. */
  lemma {:induction false} JoinAvoids(parts: seq<string>, sep: string, c: char)
    requires forall k :: 0 <= k < |parts| ==> c !in parts[k]
    requires c !in sep
    ensures c !in Join(parts, sep)
    decreases |parts|
  {
    if |parts| > 1 {
      JoinAvoids(parts[1..], sep, c);
      var j := Join(parts[1..], sep);
      assert Join(parts, sep) == parts[0] + sep + j;
      assert c !in parts[0];
      assert c !in parts[0] + sep + j;
    }
  }

  /** Joining two non-empty lists and joining the results with the same
      separator is joining their concatenation. */
  lemma {:induction false} JoinAppend(a: seq<string>, b: seq<string>, sep: string)
    requires |a| >= 1 && |b| >= 1
    ensures Join(a, sep) + sep + Join(b, sep) == Join(a + b, sep)
    decreases |a|
  {
    if |a| == 1 {
      assert (a + b)[0] == a[0] && (a + b)[1..] == b;
    } else {
      JoinAppend(a[1..], b, sep);
      assert (a + b)[0] == a[0] && (a + b)[1..] == a[1..] + b;
    }
  }
}
