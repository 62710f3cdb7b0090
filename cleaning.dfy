/** Text cleaning shared by both extractors: normalising the page text before
    matching, and cleaning a captured description. */
module Cleaning {
  import opened JsString

  /** `text.replace(/\s+/g, ' ').replace(/[\r\n]+/g, ' ').trim()`. */
  function NormalizeText(s: string): (r: string)
    ensures SingleSpaced(r) && Trimmed(r)
  {
    var collapsed := CollapseSpaces(s);
    CollapseSingleSpaced(s);
    NoLineBreakInSingleSpaced(collapsed);
    NoLineBreakFixed(collapsed);
    TrimSingleSpaced(collapsed);
    Trim(ReplaceRuns(collapsed, IsLineBreak))
  }

  /** Normalising only changes white space: every other character of the
      text is kept, in order. */
  lemma NormalizeKeepsNonSpace(s: string)
    ensures NonSpace(NormalizeText(s)) == NonSpace(s)
  {
    var collapsed := CollapseSpaces(s);
    CollapseSingleSpaced(s);
    CollapseKeepsNonSpace(s);
    NoLineBreakInSingleSpaced(collapsed);
    NoLineBreakFixed(collapsed);
    TrimKeepsNonSpace(collapsed);
  }

  lemma NoLineBreakInSingleSpaced(s: string)
    requires SingleSpaced(s)
    ensures forall i :: 0 <= i < |s| ==> !IsLineBreak(s[i])
  {
    forall i | 0 <= i < |s|
      ensures !IsLineBreak(s[i])
    {
      if IsLineBreak(s[i]) {
        assert IsSpace(s[i]);
      }
    }
  }

  /** Normalising normalised text changes nothing. */
  lemma NormalizeIdempotent(s: string)
    ensures NormalizeText(NormalizeText(s)) == NormalizeText(s)
  {
    var n := NormalizeText(s);
    CollapseFixesSingleSpaced(n);
    NoLineBreakInSingleSpaced(n);
    NoLineBreakFixed(n);
  }

  /** The marker that starts a specification block, in lower case. */
  const Marker := "specifications:"

  /** A case-insensitive `Specifications:` starts at index `i` of `s`. */
  predicate MarkerAt(s: string, i: nat) {
    i + |Marker| <= |s| && ToLower(s[i..i + |Marker|]) == Marker
  }

  // `s.replace(/Specifications:[\s\S]*/i, '')`: everything from the first
  // case-insensitive `Specifications:` on is removed.
  function CutAtMarker(s: string): (r: string)
    ensures |r| <= |s| && r == s[..|r|]
    ensures forall i :: 0 <= i < |r| ==> !MarkerAt(s, i)
    ensures |r| < |s| ==> MarkerAt(s, |r|)
  {
    CutFrom(s, 0)
  }

  function CutFrom(s: string, i: nat): (r: string)
    requires i <= |s|
    requires forall j :: 0 <= j < i ==> !MarkerAt(s, j)
    ensures i <= |r| <= |s| && r == s[..|r|]
    ensures forall j :: 0 <= j < |r| ==> !MarkerAt(s, j)
    ensures |r| < |s| ==> MarkerAt(s, |r|)
    decreases |s| - i
  {
    if i + |Marker| > |s| then s
    else if MarkerAt(s, i) then s[..i]
    else CutFrom(s, i + 1)
  }

  /** A character `cleanDescription` lets through: `\w`, a space, `,`, `.` or `-`. */
  predicate DescriptionChar(c: char) {
    IsWordChar(c) || c == ' ' || c == ',' || c == '.' || c == '-'
  }

  /** A visible character `cleanDescription` lets through: `\w`, `,`, `.` or `-`. */
  predicate DescriptionMark(c: char) {
    IsWordChar(c) || c == ',' || c == '.' || c == '-'
  }

  /** The class `[\w\s,.-]`. */
  predicate KeptByClean(c: char) {
    IsWordChar(c) || IsSpace(c) || c in ",.-"
  }

  /** `s.replace(/[^\w\s,.-]/g, '')`: the characters of the class, all of
      them and in order. */
  function RemoveDisallowed(s: string): (r: string)
    ensures r == Filter(s, KeptByClean)
    ensures (forall i :: 0 <= i < |s| && IsSpace(s[i]) ==> s[i] == ' ') ==>
      forall i :: 0 <= i < |r| ==> DescriptionChar(r[i])
    decreases |s|
  {
    if s == [] then []
    else if IsWordChar(s[0]) || IsSpace(s[0]) || s[0] in ",.-" then [s[0]] + RemoveDisallowed(s[1..])
    else RemoveDisallowed(s[1..])
  }

  /** `trim` only removes characters: a property of every character of the
      input holds of every character of the output. */
  lemma TrimKeepsChars(s: string, p: char -> bool)
    requires forall i :: 0 <= i < |s| ==> p(s[i])
    ensures forall i :: 0 <= i < |Trim(s)| ==> p(Trim(s)[i])
  {
    var a, r := LeadingSpace(s), Trim(s);
    TrimIsSlice(s);
    forall i | 0 <= i < |r|
      ensures p(r[i])
    {
      assert r[i] == s[a + i];
    }
  }

  /** `cleanDescription`: the text before the marker, white-space runs
      collapsed, disallowed characters removed, then trimmed. */
  function CleanDescription(s: string): (r: string)
    ensures s == [] ==> r == []
    ensures Trimmed(r)
    ensures forall i :: 0 <= i < |r| ==> DescriptionChar(r[i])
  {
    if s == [] then []
    else
      var collapsed := CollapseSpaces(CutAtMarker(s));
      CollapseSingleSpaced(CutAtMarker(s));
      var kept := RemoveDisallowed(collapsed);
      TrimKeepsChars(kept, DescriptionChar);
      Trim(kept)
  }

  /** The visible characters of a cleaned description are exactly the word
      characters, commas, full stops and hyphens before the first marker, in
      order. */
  lemma CleanDescriptionKeeps(s: string)
    ensures NonSpace(CleanDescription(s)) == Filter(CutAtMarker(s), DescriptionMark)
  {
    if s != [] {
      CleanKeepsMarks(CutAtMarker(s));
    }
  }

  lemma CleanKeepsMarks(cut: string)
    ensures NonSpace(Trim(RemoveDisallowed(CollapseSpaces(cut)))) == Filter(cut, DescriptionMark)
  {
    var collapsed := CollapseSpaces(cut);
    var kept := RemoveDisallowed(collapsed);
    TrimKeepsNonSpace(kept);
    MarksAreKeptNonSpace();
    FilterFilter(collapsed, KeptByClean, NotSpace, DescriptionMark);
    assert NonSpace(kept) == Filter(collapsed, DescriptionMark);
    MarksAreNonSpace(collapsed);
    CollapseKeepsNonSpace(cut);
    MarksAreNonSpace(cut);
  }

  lemma MarksAreKeptNonSpace()
    ensures forall c :: DescriptionMark(c) == (KeptByClean(c) && NotSpace(c))
  {
  }

  /** Only visible characters are marks, so white space can be dropped first. */
  lemma MarksAreNonSpace(s: string)
    ensures Filter(NonSpace(s), DescriptionMark) == Filter(s, DescriptionMark)
  {
    assert forall c :: DescriptionMark(c) == (NotSpace(c) && DescriptionMark(c));
    FilterFilter(s, NotSpace, DescriptionMark, DescriptionMark);
  }

  /** Only the text before the first marker matters to `cleanDescription`. */
  lemma CleanIgnoresSpecifications(s: string, i: nat)
    requires i < |s| && MarkerAt(s, i)
    requires forall j :: 0 <= j < i ==> !MarkerAt(s, j)
    ensures CleanDescription(s) == CleanDescription(s[..i])
  {
    assert CutAtMarker(s) == s[..i];
    if i > 0 {
      NoMarkerInPrefix(s, i);
      assert CutAtMarker(s[..i]) == s[..i];
    }
  }

  lemma NoMarkerInPrefix(s: string, i: nat)
    requires i <= |s|
    requires forall j :: 0 <= j < i ==> !MarkerAt(s, j)
    ensures forall j :: 0 <= j < i ==> !MarkerAt(s[..i], j)
  {
    forall j | 0 <= j < i
      ensures !MarkerAt(s[..i], j)
    {
      assert !MarkerAt(s, j);
      if j + |Marker| <= i {
        var a, b := s[..i][j..j + |Marker|], s[j..j + |Marker|];
        assert a == b;
        assert ToLower(a) == ToLower(b);
      }
    }
  }
  /** No slice of a text without a marker holds one. */
  lemma NoMarkerInSlice(c: string, a: nat, b: nat, r: string)
    requires forall j :: 0 <= j < |c| ==> !MarkerAt(c, j)
    requires a <= b <= |c| && r == c[a..b]
    ensures forall i :: !MarkerAt(r, i)
  {
    forall i: nat | MarkerAt(r, i)
      ensures false
    {
      var k := |Marker|;
      var x, y := r[i..i + k], c[a + i..a + i + k];
      assert x == y by {
        assert forall n :: 0 <= n < k ==> x[n] == r[i + n] == c[a + i + n];
      }
      assert ToLower(x) == ToLower(y);
      assert MarkerAt(c, a + i);
    }
  }

  /** A text without a marker is not cut. */
  lemma CutNothing(s: string)
    requires forall j :: 0 <= j < |s| ==> !MarkerAt(s, j)
    ensures CutAtMarker(s) == s
  {
  }

  /** `NormalizeText` is trimming after `replace(/\s+/g, ' ')`; the
      line-break pass changes nothing. */
  lemma NormalizeIsTrimCollapse(s: string)
    ensures NormalizeText(s) == Trim(CollapseSpaces(s))
  {
    var collapsed := CollapseSpaces(s);
    CollapseSingleSpaced(s);
    NoLineBreakInSingleSpaced(collapsed);
    NoLineBreakFixed(collapsed);
  }

  /** Normalising keeps word boundaries: a run of white space between two
      words becomes exactly one space, and each side is normalised on its own. */
  lemma NormalizeRun(a: string, w: string, b: string)
    requires a != [] && !IsSpace(a[|a| - 1])
    requires w != [] && forall i :: 0 <= i < |w| ==> IsSpace(w[i])
    requires b != [] && !IsSpace(b[0])
    ensures NormalizeText(a + w + b) == NormalizeText(a) + " " + NormalizeText(b)
  {
    NormalizeIsTrimCollapse(a + w + b);
    NormalizeIsTrimCollapse(a);
    NormalizeIsTrimCollapse(b);
    CollapseRun(a, w, b);
    CollapseLast(a);
    CollapseFirst(b);
    TrimJoin(CollapseSpaces(a), CollapseSpaces(b));
  }

  /** Before trimming, `cleanDescription` turns a run of white space between
      two pieces of text into exactly one space, which `[^\w\s,.-]` keeps,
      and cleans each piece on its own. */
  lemma CleanRun(a: string, w: string, b: string)
    requires a == [] || !IsSpace(a[|a| - 1])
    requires w != [] && forall i :: 0 <= i < |w| ==> IsSpace(w[i])
    requires b == [] || !IsSpace(b[0])
    ensures RemoveDisallowed(CollapseSpaces(a + w + b))
      == RemoveDisallowed(CollapseSpaces(a)) + " " + RemoveDisallowed(CollapseSpaces(b))
  {
    var x, y := CollapseSpaces(a), CollapseSpaces(b);
    CollapseRun(a, w, b);
    FilterAppend(x + " ", y, KeptByClean);
    FilterAppend(x, " ", KeptByClean);
    assert Filter(" ", KeptByClean) == " " by {
      assert KeptByClean(' ');
      assert " "[1..] == [];
    }
  }

  /** Two words of a description without `Specifications:`, separated by
      white space, come out of `cleanDescription` as the two cleaned words
      joined by one space. */
  lemma CleanDescriptionRun(a: string, w: string, b: string)
    requires a != [] && DescriptionMark(a[|a| - 1])
    requires w != [] && forall i :: 0 <= i < |w| ==> IsSpace(w[i])
    requires b != [] && DescriptionMark(b[0])
    requires forall j :: 0 <= j < |a + w + b| ==> !MarkerAt(a + w + b, j)
    ensures CleanDescription(a + w + b) == CleanDescription(a) + " " + CleanDescription(b)
  {
    NoMarkerParts(a, w, b);
    CleanPieces(a, w, b);
    CleanDescriptionUncut(a + w + b);
    CleanDescriptionUncut(a);
    CleanDescriptionUncut(b);
  }

  /** `cleanDescription` of a non-empty text is the trimmed, filtered,
      collapsed text before the marker. */
  lemma CleanDescriptionUncut(s: string)
    requires s != []
    ensures CleanDescription(s) == Trim(RemoveDisallowed(CollapseSpaces(CutAtMarker(s))))
  {
  }

  /** Neither a text without a marker nor its two ends are cut. */
  lemma NoMarkerParts(a: string, w: string, b: string)
    requires forall j :: 0 <= j < |a + w + b| ==> !MarkerAt(a + w + b, j)
    ensures CutAtMarker(a + w + b) == a + w + b
    ensures CutAtMarker(a) == a && CutAtMarker(b) == b
  {
    var s := a + w + b;
    assert s[..|a|] == a && s[|a| + |w|..] == b;
    NoMarkerInSlice(s, 0, |a|, a);
    NoMarkerInSlice(s, |a| + |w|, |s|, b);
    CutNothing(s);
    CutNothing(a);
    CutNothing(b);
  }

  /** The cleaning steps after the cut keep the boundary between two words. */
  lemma CleanPieces(a: string, w: string, b: string)
    requires a != [] && DescriptionMark(a[|a| - 1])
    requires w != [] && forall i :: 0 <= i < |w| ==> IsSpace(w[i])
    requires b != [] && DescriptionMark(b[0])
    ensures Trim(RemoveDisallowed(CollapseSpaces(a + w + b)))
      == Trim(RemoveDisallowed(CollapseSpaces(a))) + " " + Trim(RemoveDisallowed(CollapseSpaces(b)))
  {
    var x, y := RemoveDisallowed(CollapseSpaces(a)), RemoveDisallowed(CollapseSpaces(b));
    assert !IsSpace(a[|a| - 1]) && !IsSpace(b[0]) by {
      MarkNotSpace(a[|a| - 1]);
      MarkNotSpace(b[0]);
    }
    CleanRun(a, w, b);
    CleanedLast(a);
    CleanedFirst(b);
    TrimJoin(x, y);
  }

  lemma MarkNotSpace(c: char)
    requires DescriptionMark(c)
    ensures KeptByClean(c) && !IsSpace(c)
  {
  }

  /** A text ending in a description character still ends in it after
      collapsing and filtering. */
  lemma CleanedLast(a: string)
    requires a != [] && DescriptionMark(a[|a| - 1])
    ensures var x := RemoveDisallowed(CollapseSpaces(a)); x != [] && !IsSpace(x[|x| - 1])
  {
    MarkNotSpace(a[|a| - 1]);
    CollapseLast(a);
    FilterKeepsLast(CollapseSpaces(a), KeptByClean);
  }

  /** A text starting with a description character still starts with it after
      collapsing and filtering. */
  lemma CleanedFirst(b: string)
    requires b != [] && DescriptionMark(b[0])
    ensures var y := RemoveDisallowed(CollapseSpaces(b)); y != [] && !IsSpace(y[0])
  {
    MarkNotSpace(b[0]);
    CollapseFirst(b);
    FilterKeepsFirst(CollapseSpaces(b), KeptByClean);
  }
}
