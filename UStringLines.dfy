/** UString::splitLines (tsUStringTemplate.h).

    splitLines cuts a long text into lines of at most maxWidth characters, at white
    space or after one of `otherSeparators`, and prefixes every line but the first
    with `nextMargin`. `Scan` follows its loop over the state (marginLength, start,
    eol, cur) and records where each line is cut as a `Range` of the text; the
    lines themselves are rendered from that `Layout`. */
module UStringLines {
  import opened UChars

  /** The characters [from, to) of the text form one line. */
  datatype Range = Range(from: nat, to: nat)

  /** The lines cut by the loop, and where the rest of the text (the last line) starts. */
  datatype Layout = Layout(cuts: seq<Range>, rest: nat)

  /** The first position at or after i that is not white space, or |s|. */
  function SkipSpaces(s: seq<char>, i: nat): (j: nat)
    requires i <= |s|
    ensures i <= j <= |s|
    ensures forall k :: i <= k < j ==> IsSpace(s[k])
    ensures j < |s| ==> !IsSpace(s[j])
    decreases |s| - i
  {
    if i < |s| && IsSpace(s[i]) then SkipSpaces(s, i + 1) else i
  }

  /** A line may end at cur: on white space, or after one of the other separators. */
  predicate BreakAt(s: seq<char>, others: seq<char>, start: nat, cur: nat)
    requires cur < |s|
  {
    IsSpace(s[cur]) || (cur > start && s[cur - 1] in others)
  }

  predicate ValidRanges(s: seq<char>, cuts: seq<Range>)
  {
    forall i :: 0 <= i < |cuts| ==> cuts[i].from <= cuts[i].to <= |s|
  }

  /** The loop of splitLines from the state (m, start, eol, cur), where m is the
      current marginLength and mlen the length of nextMargin. */
  function Scan(s: seq<char>, maxWidth: nat, others: seq<char>, mlen: nat, force: bool,
                m: nat, start: nat, eol: nat, cur: nat): (l: Layout)
    requires m < maxWidth && mlen < maxWidth
    requires start <= eol <= cur <= |s|
    ensures ValidRanges(s, l.cuts) && l.rest <= |s|
    decreases |s| - start, |s| - cur
  {
    if cur == |s| then Layout([], start)
    else
      var eol' := if BreakAt(s, others, start, cur) then cur else eol;
      if m + cur - start >= maxWidth && (eol' > start || force) then
        var e := if eol' > start then eol' else cur;
        var next := SkipSpaces(s, e);
        var l := Scan(s, maxWidth, others, mlen, force, mlen, next, next, next);
        Layout([Range(start, e)] + l.cuts, l.rest)
      else
        Scan(s, maxWidth, others, mlen, force, m, start, eol', cur + 1)
  }

  /** The margin of a line cut while marginLength is m. */
  function Prefix(margin: seq<char>, m: nat): seq<char>
  {
    if m == 0 then [] else margin
  }

  /** The cut lines: the first with Prefix(margin, m), the others with the margin. */
  function RenderCuts(s: seq<char>, margin: seq<char>, cuts: seq<Range>, m: nat): (r: seq<seq<char>>)
    requires ValidRanges(s, cuts)
    ensures |r| == |cuts|
    decreases |cuts|
  {
    if cuts == [] then []
    else [Prefix(margin, m) + s[cuts[0].from..cuts[0].to]] + RenderCuts(s, margin, cuts[1..], |margin|)
  }

  /** The last line, if any text remains. The template always prefixes it with the
      margin (asWritten); the corrected form uses the margin only once a line has
      been cut, like every other line. */
  function Tail(s: seq<char>, margin: seq<char>, l: Layout, m: nat, asWritten: bool): seq<seq<char>>
    requires l.rest <= |s|
  {
    if l.rest < |s| then
      [(if asWritten then margin else Prefix(margin, if l.cuts == [] then m else |margin|)) + s[l.rest..]]
    else []
  }

  function Render(s: seq<char>, margin: seq<char>, l: Layout, m: nat, asWritten: bool): seq<seq<char>>
    requires ValidRanges(s, l.cuts) && l.rest <= |s|
  {
    RenderCuts(s, margin, l.cuts, m) + Tail(s, margin, l, m, asWritten)
  }

  /** Whether the text is returned as one line without being cut. */
  predicate Short(s: seq<char>, maxWidth: nat, nextMargin: seq<char>)
  {
    |s| <= maxWidth || |nextMargin| >= maxWidth
  }

  /** The layout of a text that is not Short. */
  function TopScan(s: seq<char>, maxWidth: nat, others: seq<char>, nextMargin: seq<char>, force: bool): (l: Layout)
    requires !Short(s, maxWidth, nextMargin)
    ensures ValidRanges(s, l.cuts) && l.rest <= |s|
  {
    Scan(s, maxWidth, others, |nextMargin|, force, 0, 0, 0, 0)
  }

  /** The lines of splitLines as the template writes them. */
  function SplitLinesAsWritten(s: seq<char>, maxWidth: nat, others: seq<char>, nextMargin: seq<char>,
                               force: bool): seq<seq<char>>
  {
    if Short(s, maxWidth, nextMargin) then [s]
    else Render(s, nextMargin, TopScan(s, maxWidth, others, nextMargin, force), 0, true)
  }

  /** The lines of splitLines with the first line never carrying the margin. */
  function SplitLinesSpec(s: seq<char>, maxWidth: nat, others: seq<char>, nextMargin: seq<char>,
                          force: bool): seq<seq<char>>
  {
    if Short(s, maxWidth, nextMargin) then [s]
    else Render(s, nextMargin, TopScan(s, maxWidth, others, nextMargin, force), 0, false)
  }

  // ---------------------------------------------------------------------------
  // The method
  // ---------------------------------------------------------------------------

  /** UString::splitLines(lines, maxWidth, otherSeparators, nextMargin, forceSplit),
      with the last line prefixed like the others. The container is cleared first,
      so it is returned. */
  method SplitLines(s: seq<char>, maxWidth: nat, otherSeparators: seq<char>, nextMargin: seq<char>,
                    forceSplit: bool) returns (lines: seq<seq<char>>)
    ensures lines == SplitLinesSpec(s, maxWidth, otherSeparators, nextMargin, forceSplit)
    ensures Short(s, maxWidth, nextMargin) ==> lines == [s]
  {
    // A short text, or a margin too wide for any line, gives one line.
    if |s| <= maxWidth || |nextMargin| >= maxWidth {
      lines := [s];
      return;
    }
    ghost var total := SplitLinesSpec(s, maxWidth, otherSeparators, nextMargin, forceSplit);
    lines := [];
    var marginLength := 0; // no margin on the first line
    var start := 0;        // start of the current line
    var eol := 0;          // last possible end of line
    var cur := 0;          // current index
    while cur < |s|
      invariant start <= eol <= cur <= |s|
      invariant marginLength == 0 || marginLength == |nextMargin|
      invariant total == lines + Render(s, nextMargin,
        Scan(s, maxWidth, otherSeparators, |nextMargin|, forceSplit, marginLength, start, eol, cur),
        marginLength, false)
      decreases |s| - start, |s| - cur
    {
      lines, marginLength, start, eol, cur :=
        LineStep(s, maxWidth, otherSeparators, nextMargin, forceSplit, total, lines, marginLength, start, eol, cur);
    }
    // The rest of the text on the last line.
    LinesEnd(s, maxWidth, otherSeparators, nextMargin, forceSplit, marginLength, start, eol, total, lines);
    if start < |s| {
      lines := lines + [(if marginLength == 0 then [] else nextMargin) + s[start..]];
    }
  }

  /** One iteration of the loop of splitLines, at the character s[cur]: either the
      current line is cut and a new one starts, or cur moves on. */
  method LineStep(s: seq<char>, maxWidth: nat, otherSeparators: seq<char>, nextMargin: seq<char>, forceSplit: bool,
                  ghost total: seq<seq<char>>, lines: seq<seq<char>>, marginLength: nat, start: nat, eol: nat, cur: nat)
    returns (lines': seq<seq<char>>, marginLength': nat, start': nat, eol': nat, cur': nat)
    requires |nextMargin| < maxWidth && (marginLength == 0 || marginLength == |nextMargin|)
    requires start <= eol <= cur < |s|
    requires total == lines + Render(s, nextMargin,
      Scan(s, maxWidth, otherSeparators, |nextMargin|, forceSplit, marginLength, start, eol, cur), marginLength, false)
    ensures start' <= eol' <= cur' <= |s|
    ensures marginLength' == 0 || marginLength' == |nextMargin|
    ensures total == lines' + Render(s, nextMargin,
      Scan(s, maxWidth, otherSeparators, |nextMargin|, forceSplit, marginLength', start', eol', cur'), marginLength', false)
    ensures start < start' || (start' == start && cur' == cur + 1)
  {
    lines', marginLength', start', eol', cur' := lines, marginLength, start, eol, cur;
    if IsSpace(s[cur]) || (cur > start && s[cur - 1] in otherSeparators) {
      // Possible end of line here.
      eol' := cur;
    }
    var cut := false;
    if marginLength + cur - start >= maxWidth {
      if eol' > start {
        cut := true;
      } else if forceSplit {
        eol' := cur;
        cut := true;
      }
    }
    if cut {
      LinesCut(s, maxWidth, otherSeparators, nextMargin, forceSplit, marginLength, start, eol, cur, eol', total, lines);
      lines' := lines + [(if marginLength == 0 then [] else nextMargin) + s[start..eol']];
      marginLength' := |nextMargin|;
      // Start a new line, skipping leading spaces.
      start' := SkipLeadingSpaces(s, eol');
      cur' := start';
      eol' := start';
    } else {
      LinesNoCut(s, maxWidth, otherSeparators, nextMargin, forceSplit, marginLength, start, eol, cur, eol', total, lines);
      cur' := cur + 1;
    }
  }

  /** `while (start < length() && IsSpace(at(start))) start++;` */
  method SkipLeadingSpaces(s: seq<char>, from: nat) returns (start: nat)
    requires from <= |s|
    ensures start == SkipSpaces(s, from)
  {
    start := from;
    while start < |s| && IsSpace(s[start])
      invariant from <= start <= |s|
      invariant SkipSpaces(s, start) == SkipSpaces(s, from)
    {
      start := start + 1;
    }
  }

  /** An iteration of the loop of splitLines that cuts a line keeps its invariant:
      the lines still to come are the cut line, then those of the new line's state. */
  lemma LinesCut(s: seq<char>, maxWidth: nat, others: seq<char>, margin: seq<char>, force: bool,
                 m: nat, start: nat, eol: nat, cur: nat, e: nat, total: seq<seq<char>>, before: seq<seq<char>>)
    requires m < maxWidth && |margin| < maxWidth
    requires start <= eol <= cur < |s|
    requires total == before + Render(s, margin, Scan(s, maxWidth, others, |margin|, force, m, start, eol, cur), m, false)
    requires var eol' := if BreakAt(s, others, start, cur) then cur else eol;
      m + cur - start >= maxWidth && (eol' > start || force) && e == (if eol' > start then eol' else cur)
    ensures start < e <= cur
    ensures var next := SkipSpaces(s, e);
      total == before + [Prefix(margin, m) + s[start..e]]
        + Render(s, margin, Scan(s, maxWidth, others, |margin|, force, |margin|, next, next, next), |margin|, false)
  {
    var next := SkipSpaces(s, e);
    var l := Scan(s, maxWidth, others, |margin|, force, |margin|, next, next, next);
    var whole := Layout([Range(start, e)] + l.cuts, l.rest);
    assert Scan(s, maxWidth, others, |margin|, force, m, start, eol, cur) == whole;
    assert whole.cuts[1..] == l.cuts;
    assert RenderCuts(s, margin, whole.cuts, m) == [Prefix(margin, m) + s[start..e]] + RenderCuts(s, margin, l.cuts, |margin|);
    assert Tail(s, margin, whole, m, false) == Tail(s, margin, l, |margin|, false);
  }

  /** An iteration of the loop of splitLines that does not cut only moves cur. */
  lemma LinesNoCut(s: seq<char>, maxWidth: nat, others: seq<char>, margin: seq<char>, force: bool,
                   m: nat, start: nat, eol: nat, cur: nat, eol': nat, total: seq<seq<char>>, before: seq<seq<char>>)
    requires m < maxWidth && |margin| < maxWidth
    requires start <= eol <= cur < |s|
    requires total == before + Render(s, margin, Scan(s, maxWidth, others, |margin|, force, m, start, eol, cur), m, false)
    requires eol' == if BreakAt(s, others, start, cur) then cur else eol
    requires !(m + cur - start >= maxWidth && (eol' > start || force))
    ensures total == before + Render(s, margin, Scan(s, maxWidth, others, |margin|, force, m, start, eol', cur + 1), m, false)
  {
  }

  /** When the loop of splitLines ends, only the last line is left. */
  lemma LinesEnd(s: seq<char>, maxWidth: nat, others: seq<char>, margin: seq<char>, force: bool,
                 m: nat, start: nat, eol: nat, total: seq<seq<char>>, before: seq<seq<char>>)
    requires m < maxWidth && |margin| < maxWidth
    requires start <= eol <= |s|
    requires total == before + Render(s, margin, Scan(s, maxWidth, others, |margin|, force, m, start, eol, |s|), m, false)
    ensures total == before + if start < |s| then [Prefix(margin, m) + s[start..]] else []
  {
  }

  // ---------------------------------------------------------------------------
  // Properties
  // ---------------------------------------------------------------------------

  /** The cut lines and the last line tile the text from `start`: each line begins
      where the previous one ended once white space is skipped, and is not empty. */
  predicate Tiles(s: seq<char>, start: nat, cuts: seq<Range>, rest: nat)
    decreases |cuts|
  {
    if cuts == [] then rest == start
    else (cuts[0].from == start && start < cuts[0].to <= |s|
          && Tiles(s, SkipSpaces(s, cuts[0].to), cuts[1..], rest))
  }

  lemma {:induction false} ScanTiles(s: seq<char>, maxWidth: nat, others: seq<char>, mlen: nat, force: bool,
                                     m: nat, start: nat, eol: nat, cur: nat)
    requires m < maxWidth && mlen < maxWidth
    requires start <= eol <= cur <= |s|
    ensures var l := Scan(s, maxWidth, others, mlen, force, m, start, eol, cur);
      Tiles(s, start, l.cuts, l.rest)
    decreases |s| - start, |s| - cur
  {
    if cur < |s| {
      var eol' := if BreakAt(s, others, start, cur) then cur else eol;
      if m + cur - start >= maxWidth && (eol' > start || force) {
        var e := if eol' > start then eol' else cur;
        var next := SkipSpaces(s, e);
        ScanTiles(s, maxWidth, others, mlen, force, mlen, next, next, next);
        var l := Scan(s, maxWidth, others, mlen, force, mlen, next, next, next);
        assert ([Range(start, e)] + l.cuts)[1..] == l.cuts;
      } else {
        ScanTiles(s, maxWidth, others, mlen, force, m, start, eol', cur + 1);
      }
    }
  }

  /** A text that is not Short is cut into pieces that tile it from its first
      character: only white space at the cuts is dropped. */
  lemma SplitLinesTiles(s: seq<char>, maxWidth: nat, others: seq<char>, nextMargin: seq<char>, force: bool)
    requires !Short(s, maxWidth, nextMargin)
    ensures var l := TopScan(s, maxWidth, others, nextMargin, force);
      Tiles(s, 0, l.cuts, l.rest)
  {
    ScanTiles(s, maxWidth, others, |nextMargin|, force, 0, 0, 0, 0);
  }

  /** With forceSplit, no line of the layout is wider than maxWidth, margin included:
      the cut lines, and the last one with the margin it would carry. */
  predicate FitsWidth(s: seq<char>, cuts: seq<Range>, rest: nat, m: nat, mlen: nat, maxWidth: nat)
    requires rest <= |s|
    decreases |cuts|
  {
    if cuts == [] then m + (|s| - rest) <= maxWidth
    else (cuts[0].from <= cuts[0].to && m + (cuts[0].to - cuts[0].from) <= maxWidth
          && FitsWidth(s, cuts[1..], rest, mlen, mlen, maxWidth))
  }

  lemma {:induction false} ScanWidth(s: seq<char>, maxWidth: nat, others: seq<char>, mlen: nat,
                                     m: nat, start: nat, eol: nat, cur: nat)
    requires m < maxWidth && mlen < maxWidth
    requires start <= eol <= cur <= |s|
    requires m + (cur - start) <= maxWidth
    ensures var l := Scan(s, maxWidth, others, mlen, true, m, start, eol, cur);
      FitsWidth(s, l.cuts, l.rest, m, mlen, maxWidth)
    decreases |s| - start, |s| - cur
  {
    if cur < |s| {
      var eol' := if BreakAt(s, others, start, cur) then cur else eol;
      if m + cur - start >= maxWidth {
        var e := if eol' > start then eol' else cur;
        var next := SkipSpaces(s, e);
        ScanWidth(s, maxWidth, others, mlen, mlen, next, next, next);
        var l := Scan(s, maxWidth, others, mlen, true, mlen, next, next, next);
        assert ([Range(start, e)] + l.cuts)[1..] == l.cuts;
      } else {
        ScanWidth(s, maxWidth, others, mlen, m, start, eol', cur + 1);
      }
    }
  }

  /** Rendering a layout that fits keeps every line within maxWidth. */
  lemma {:induction false} RenderWidth(s: seq<char>, margin: seq<char>, l: Layout, m: nat, maxWidth: nat)
    requires ValidRanges(s, l.cuts) && l.rest <= |s|
    requires m == 0 || m == |margin|
    requires FitsWidth(s, l.cuts, l.rest, m, |margin|, maxWidth)
    ensures forall i :: 0 <= i < |Render(s, margin, l, m, false)| ==> |Render(s, margin, l, m, false)[i]| <= maxWidth
    decreases |l.cuts|
  {
    var r := Render(s, margin, l, m, false);
    if l.cuts != [] {
      var l' := Layout(l.cuts[1..], l.rest);
      RenderWidth(s, margin, l', |margin|, maxWidth);
      var first := Prefix(margin, m) + s[l.cuts[0].from..l.cuts[0].to];
      assert |first| <= maxWidth;
      var others := Render(s, margin, l', |margin|, false);
      assert RenderCuts(s, margin, l.cuts, m) == [first] + RenderCuts(s, margin, l'.cuts, |margin|);
      assert Tail(s, margin, l, m, false) == Tail(s, margin, l', |margin|, false);
      assert r == [first] + others;
      forall i | 1 <= i < |r| ensures |r[i]| <= maxWidth {
        assert r[i] == others[i - 1];
      }
    } else {
      assert r == Tail(s, margin, l, m, false);
    }
  }

  /** With forceSplit, every line fits in maxWidth unless the margin alone is too wide. */
  lemma SplitLinesForcedWidth(s: seq<char>, maxWidth: nat, others: seq<char>, nextMargin: seq<char>)
    requires |s| <= maxWidth || |nextMargin| < maxWidth
    ensures var lines := SplitLinesSpec(s, maxWidth, others, nextMargin, true);
      forall i :: 0 <= i < |lines| ==> |lines[i]| <= maxWidth
  {
    if !Short(s, maxWidth, nextMargin) {
      ScanWidth(s, maxWidth, others, |nextMargin|, 0, 0, 0, 0);
      RenderWidth(s, nextMargin, TopScan(s, maxWidth, others, nextMargin, true), 0, maxWidth);
    }
  }

  /** With forceSplit, a long text is always cut at least once, so the template's
      margin on the last line is the right one. */
  lemma SplitLinesForcedAgrees(s: seq<char>, maxWidth: nat, others: seq<char>, nextMargin: seq<char>)
    ensures SplitLinesAsWritten(s, maxWidth, others, nextMargin, true)
      == SplitLinesSpec(s, maxWidth, others, nextMargin, true)
  {
    if !Short(s, maxWidth, nextMargin) {
      ScanWidth(s, maxWidth, others, |nextMargin|, 0, 0, 0, 0);
      ScanTiles(s, maxWidth, others, |nextMargin|, true, 0, 0, 0, 0);
      var l := TopScan(s, maxWidth, others, nextMargin, true);
      assert l.cuts != [];
      assert Tail(s, nextMargin, l, 0, true) == Tail(s, nextMargin, l, 0, false);
    }
  }

  /** Without a place to cut, the loop never cuts. */
  lemma {:induction false} ScanNoBreak(s: seq<char>, maxWidth: nat, others: seq<char>, mlen: nat,
                                       m: nat, start: nat, cur: nat)
    requires m < maxWidth && mlen < maxWidth
    requires start <= cur <= |s|
    requires forall k :: start <= k < |s| ==> !IsSpace(s[k]) && s[k] !in others
    ensures Scan(s, maxWidth, others, mlen, false, m, start, start, cur) == Layout([], start)
    decreases |s| - cur
  {
    if cur < |s| {
      ScanNoBreak(s, maxWidth, others, mlen, m, start, cur + 1);
    }
  }

  /** A long word that cannot be cut without forceSplit comes back as one line, which
      the template prefixes with the margin although it is the first line. */
  lemma SplitLinesAsWrittenMargin(s: seq<char>, maxWidth: nat, others: seq<char>, nextMargin: seq<char>)
    requires |nextMargin| < maxWidth < |s|
    requires forall k :: 0 <= k < |s| ==> !IsSpace(s[k]) && s[k] !in others
    ensures SplitLinesAsWritten(s, maxWidth, others, nextMargin, false) == [nextMargin + s]
    ensures SplitLinesSpec(s, maxWidth, others, nextMargin, false) == [s]
  {
    ScanNoBreak(s, maxWidth, others, |nextMargin|, 0, 0, 0);
    var l := TopScan(s, maxWidth, others, nextMargin, false);
    assert l == Layout([], 0);
    assert s[0..] == s;
    assert RenderCuts(s, nextMargin, l.cuts, 0) == [];
    assert Prefix(nextMargin, 0) + s == s;
    assert Tail(s, nextMargin, l, 0, false) == [s];
  }

  /** The smallest case: "abcde" in lines of 4 with margin " " comes back as " abcde". */
  lemma SplitLinesAsWrittenExample()
    ensures SplitLinesAsWritten("abcde", 4, "", " ", false) == [" abcde"]
    ensures SplitLinesSpec("abcde", 4, "", " ", false) == ["abcde"]
  {
    SplitLinesAsWrittenMargin("abcde", 4, "", " ");
    assert " " + "abcde" == " abcde";
  }
}
