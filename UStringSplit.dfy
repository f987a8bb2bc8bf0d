/** UString::split and UString::Join (tsUStringTemplate.h).

    `split` walks the string through c_str(), so it only sees the characters
    before the first NUL; `At` models that terminated view. The segments it
    produces are specified by `Pieces`, the classic "cut at every separator"
    function, whose properties (count, separator-free segments, and the round
    trip through `Interleave`) are proved below. */
module UStringSplit {
  import opened UChars

  /** The character at index i of c_str(): the NUL terminator past the end. */
  function At(s: seq<char>, i: nat): char
  {
    if i < |s| then s[i] else '\0'
  }

  /** Index of the first c in s, or |s| when there is none. */
  function IndexOf(s: seq<char>, c: char): (i: nat)
    ensures i <= |s|
    ensures forall k :: 0 <= k < i ==> s[k] != c
    ensures i < |s| ==> s[i] == c
  {
    if s == [] || s[0] == c then 0 else 1 + IndexOf(s[1..], c)
  }

  /** The pieces of s between occurrences of c, including empty ones. */
  function Pieces(s: seq<char>, c: char): (r: seq<seq<char>>)
    ensures |r| >= 1
    decreases |s|
  {
    var i := IndexOf(s, c);
    if i == |s| then [s] else [s[..i]] + Pieces(s[i + 1..], c)
  }

  /** The elements of xs with sep between each pair (the reference join). */
  function Interleave(xs: seq<seq<char>>, sep: seq<char>): seq<char>
  {
    if xs == [] then []
    else if |xs| == 1 then xs[0]
    else xs[0] + sep + Interleave(xs[1..], sep)
  }

  /** What split stores for each piece: trimmed if asked, dropped if empty and asked. */
  function Segments(pieces: seq<seq<char>>, trimSpaces: bool, removeEmpty: bool): seq<seq<char>>
  {
    if pieces == [] then []
    else Kept(pieces[0], trimSpaces, removeEmpty) + Segments(pieces[1..], trimSpaces, removeEmpty)
  }

  /** The contribution of one piece to the container: none, or the (trimmed) piece. */
  function Kept(piece: seq<char>, trimSpaces: bool, removeEmpty: bool): seq<seq<char>>
  {
    var seg := if trimSpaces then Trim(piece, true, true) else piece;
    if removeEmpty && seg == [] then [] else [seg]
  }

  /** The loop invariant of split survives one iteration. */
  lemma SplitAdvance(cs: seq<char>, input: nat, sep: nat, c: char, trimSpaces: bool, removeEmpty: bool,
                     before: seq<seq<char>>, after: seq<seq<char>>)
    requires input <= sep <= |cs|
    requires forall k :: input <= k < sep ==> cs[k] != c
    requires sep < |cs| ==> cs[sep] == c
    requires Segments(Pieces(cs, c), trimSpaces, removeEmpty)
      == before + Segments(Pieces(cs[input..], c), trimSpaces, removeEmpty)
    requires after == before + Kept(cs[input..sep], trimSpaces, removeEmpty)
    ensures sep < |cs| ==>
      Segments(Pieces(cs, c), trimSpaces, removeEmpty)
      == after + Segments(Pieces(cs[sep + 1..], c), trimSpaces, removeEmpty)
    ensures sep == |cs| ==> Segments(Pieces(cs, c), trimSpaces, removeEmpty) == after
  {
    SegmentsStep(cs, input, sep, c, trimSpaces, removeEmpty);
    var later := if sep < |cs| then Segments(Pieces(cs[sep + 1..], c), trimSpaces, removeEmpty) else [];
    ConcatStep(Segments(Pieces(cs, c), trimSpaces, removeEmpty), before,
      Segments(Pieces(cs[input..], c), trimSpaces, removeEmpty),
      Kept(cs[input..sep], trimSpaces, removeEmpty), later, after);
  }

  lemma ConcatStep<T>(total: seq<T>, before: seq<T>, rest: seq<T>, kept: seq<T>, later: seq<T>, after: seq<T>)
    requires total == before + rest && rest == kept + later && after == before + kept
    ensures total == after + later
  {
  }

  lemma KeptIs(piece: seq<char>, trimSpaces: bool, removeEmpty: bool, seg: seq<char>)
    requires seg == if trimSpaces then Trim(piece, true, true) else piece
    ensures Kept(piece, trimSpaces, removeEmpty) == if !removeEmpty || seg != [] then [seg] else []
  {
  }

  /** One iteration of split: the piece up to the first separator, then the rest. */
  lemma SegmentsStep(cs: seq<char>, input: nat, sep: nat, c: char, trimSpaces: bool, removeEmpty: bool)
    requires input <= sep <= |cs|
    requires forall k :: input <= k < sep ==> cs[k] != c
    requires sep < |cs| ==> cs[sep] == c
    ensures Segments(Pieces(cs[input..], c), trimSpaces, removeEmpty)
      == Kept(cs[input..sep], trimSpaces, removeEmpty)
         + (if sep < |cs| then Segments(Pieces(cs[sep + 1..], c), trimSpaces, removeEmpty) else [])
  {
    var rest := cs[input..];
    IndexOfIs(rest, c, sep - input);
    assert rest[..sep - input] == cs[input..sep];
    var pieces := Pieces(rest, c);
    if sep < |cs| {
      assert rest[sep - input + 1..] == cs[sep + 1..];
      assert pieces == [cs[input..sep]] + Pieces(cs[sep + 1..], c);
      assert pieces[1..] == Pieces(cs[sep + 1..], c);
    } else {
      assert rest == cs[input..sep];
    }
  }

  lemma CountConcat(a: seq<char>, b: seq<char>, c: char)
    ensures Count(a + b, c) == Count(a, c) + Count(b, c)
  {
    if a == [] {
      assert a + b == b;
    } else {
      assert (a + b)[1..] == a[1..] + b;
      CountConcat(a[1..], b, c);
    }
  }

  lemma CountAbsent(s: seq<char>, c: char)
    requires forall k :: 0 <= k < |s| ==> s[k] != c
    ensures Count(s, c) == 0
  {
  }

  /** There is one more piece than there are separators. */
  lemma {:induction false} PiecesCount(s: seq<char>, c: char)
    ensures |Pieces(s, c)| == Count(s, c) + 1
    decreases |s|
  {
    var i := IndexOf(s, c);
    if i == |s| {
      CountAbsent(s, c);
    } else {
      PiecesCount(s[i + 1..], c);
      assert s == s[..i] + [c] + s[i + 1..];
      CountConcat(s[..i] + [c], s[i + 1..], c);
      CountConcat(s[..i], [c], c);
      CountAbsent(s[..i], c);
    }
  }

  /** No piece contains the separator. */
  lemma {:induction false} PiecesSeparatorFree(s: seq<char>, c: char)
    ensures forall k :: 0 <= k < |Pieces(s, c)| ==> c !in Pieces(s, c)[k]
    decreases |s|
  {
    var i := IndexOf(s, c);
    if i < |s| {
      PiecesSeparatorFree(s[i + 1..], c);
      var r := Pieces(s, c);
      forall k | 0 <= k < |r| ensures c !in r[k] {
        if k > 0 {
          assert r[k] == Pieces(s[i + 1..], c)[k - 1];
        }
      }
    }
  }

  /** Joining the pieces with the separator between each pair gives back the string. */
  lemma {:induction false} PiecesInterleave(s: seq<char>, c: char)
    ensures Interleave(Pieces(s, c), [c]) == s
    decreases |s|
  {
    var i := IndexOf(s, c);
    if i < |s| {
      PiecesInterleave(s[i + 1..], c);
      var r := Pieces(s, c);
      assert r[1..] == Pieces(s[i + 1..], c);
      assert s == s[..i] + [c] + s[i + 1..];
    }
  }

  /** Without trimming and removal, split keeps every piece as it is. */
  lemma {:induction false} SegmentsPlain(pieces: seq<seq<char>>)
    ensures Segments(pieces, false, false) == pieces
  {
    if pieces != [] {
      SegmentsPlain(pieces[1..]);
    }
  }

  /** A segment as split promises it: non-empty when empty ones are removed, and
      without white space at either end when segments are trimmed. */
  predicate SegmentOk(seg: seq<char>, trimSpaces: bool, removeEmpty: bool)
  {
    (removeEmpty ==> seg != [])
    && (trimSpaces && seg != [] ==> !IsSpace(seg[0]) && !IsSpace(seg[|seg| - 1]))
  }

  /** Every segment split keeps has the shape its flags ask for. */
  lemma {:induction false} SegmentsShape(pieces: seq<seq<char>>, trimSpaces: bool, removeEmpty: bool)
    ensures forall k :: 0 <= k < |Segments(pieces, trimSpaces, removeEmpty)| ==>
      SegmentOk(Segments(pieces, trimSpaces, removeEmpty)[k], trimSpaces, removeEmpty)
  {
    if pieces != [] {
      SegmentsShape(pieces[1..], trimSpaces, removeEmpty);
      TrimBoth(pieces[0]);
      var kept := Kept(pieces[0], trimSpaces, removeEmpty);
      var rest := Segments(pieces[1..], trimSpaces, removeEmpty);
      var all := Segments(pieces, trimSpaces, removeEmpty);
      assert all == kept + rest;
      forall k | 0 <= k < |all| ensures SegmentOk(all[k], trimSpaces, removeEmpty) {
        if k < |kept| {
          var seg := if trimSpaces then Trim(pieces[0], true, true) else pieces[0];
          assert kept == [seg] && all[k] == seg;
        } else {
          assert all[k] == rest[k - |kept|];
        }
      }
    }
  }

  /** UString::split(container, separator, trimSpaces, removeEmpty). The container is
      cleared first, so its previous contents do not matter and it is returned. */
  method Split(s: seq<char>, separator: char, trimSpaces: bool, removeEmpty: bool)
    returns (container: seq<seq<char>>)
    ensures container == Segments(Pieces(CStr(s), separator), trimSpaces, removeEmpty)
    ensures !trimSpaces && !removeEmpty ==>
      |container| == Count(CStr(s), separator) + 1
      && (forall k :: 0 <= k < |container| ==> separator !in container[k])
      && Interleave(container, [separator]) == CStr(s)
  {
    ghost var cs := CStr(s);
    ghost var n := |cs|;
    container := [];
    var input := 0;
    assert cs[input..] == cs;
    while true
      invariant input <= n
      invariant Segments(Pieces(cs, separator), trimSpaces, removeEmpty)
        == container + Segments(Pieces(cs[input..], separator), trimSpaces, removeEmpty)
      decreases n - input
    {
      // Locate the next separator.
      var sep := FindSeparator(s, input, separator);
      ghost var before := container;
      var segment := s[input..sep];
      CStrSlice(s, input, sep);
      ghost var piece := segment;
      if trimSpaces {
        segment := Trim(segment, true, true);
      }
      KeptIs(piece, trimSpaces, removeEmpty, segment);
      if !removeEmpty || segment != [] {
        container := container + [segment];
      }
      SplitAdvance(cs, input, sep, separator, trimSpaces, removeEmpty, before, container);
      if At(s, sep) == '\0' {
        break;
      }
      input := sep + 1;
    }
    if !trimSpaces && !removeEmpty {
      SplitPlain(cs, separator);
    }
  }

  /** The scan `for (sep = input; *sep != separator && *sep != 0; ++sep)`. */
  method FindSeparator(s: seq<char>, input: nat, separator: char) returns (sep: nat)
    requires input <= |CStr(s)|
    ensures input <= sep <= |CStr(s)|
    ensures forall k :: input <= k < sep ==> CStr(s)[k] != separator
    ensures sep < |CStr(s)| ==> CStr(s)[sep] == separator
    ensures At(s, sep) == '\0' <==> sep == |CStr(s)|
  {
    ghost var cs := CStr(s);
    sep := input;
    while At(s, sep) != separator && At(s, sep) != '\0'
      invariant input <= sep <= |cs|
      invariant forall k :: input <= k < sep ==> cs[k] != separator
      decreases |cs| - sep
    {
      AtCStr(s, sep);
      sep := sep + 1;
    }
    AtCStr(s, sep);
  }

  /** The properties of a split that neither trims nor removes empty segments. */
  lemma SplitPlain(cs: seq<char>, c: char)
    ensures var r := Segments(Pieces(cs, c), false, false);
      |r| == Count(cs, c) + 1
      && (forall k :: 0 <= k < |r| ==> c !in r[k])
      && Interleave(r, [c]) == cs
  {
    SegmentsPlain(Pieces(cs, c));
    PiecesCount(cs, c);
    PiecesSeparatorFree(cs, c);
    PiecesInterleave(cs, c);
  }

  lemma CStrSlice(s: seq<char>, i: nat, j: nat)
    requires i <= j <= |CStr(s)|
    ensures s[i..j] == CStr(s)[i..j]
  {
    var cs := CStr(s);
    assert cs == s[..|cs|];
  }

  /** Below the first NUL, c_str() shows the string's characters; at it, the terminator. */
  lemma AtCStr(s: seq<char>, i: nat)
    requires i <= |CStr(s)|
    ensures i < |CStr(s)| ==> At(s, i) == CStr(s)[i] && At(s, i) != '\0'
    ensures i == |CStr(s)| ==> At(s, i) == '\0'
  {
  }

  /** IndexOf is determined by its two defining properties. */
  lemma IndexOfIs(s: seq<char>, c: char, j: nat)
    requires j <= |s|
    requires forall k :: 0 <= k < j ==> s[k] != c
    requires j < |s| ==> s[j] == c
    ensures IndexOf(s, c) == j
  {
  }

  /** xs without its leading empty strings. */
  function DropLeadingEmpty(xs: seq<seq<char>>): (r: seq<seq<char>>)
    ensures r == [] || r[0] != []
  {
    if xs != [] && xs[0] == [] then DropLeadingEmpty(xs[1..]) else xs
  }

  /** What DropLeadingEmpty removes is a prefix of empty strings. */
  lemma {:induction false} DropLeadingEmptyShape(xs: seq<seq<char>>)
    ensures var r := DropLeadingEmpty(xs);
      |r| <= |xs| && r == xs[|xs| - |r|..] && forall k :: 0 <= k < |xs| - |r| ==> xs[k] == []
  {
    if xs != [] && xs[0] == [] {
      DropLeadingEmptyShape(xs[1..]);
      var r := DropLeadingEmpty(xs);
      assert r == DropLeadingEmpty(xs[1..]);
      assert xs[1..][|xs| - 1 - |r|..] == xs[|xs| - |r|..];
      forall k | 1 <= k < |xs| - |r| ensures xs[k] == [] {
        assert xs[k] == xs[1..][k - 1];
      }
    } else {
      assert xs[0..] == xs;
    }
  }

  lemma InterleaveSnoc(xs: seq<seq<char>>, y: seq<char>, sep: seq<char>)
    requires xs != []
    ensures Interleave(xs + [y], sep) == Interleave(xs, sep) + sep + y
  {
    if |xs| > 1 {
      assert (xs + [y])[1..] == xs[1..] + [y];
      InterleaveSnoc(xs[1..], y, sep);
    }
  }

  lemma InterleaveNonEmpty(xs: seq<seq<char>>, sep: seq<char>)
    requires xs != [] && xs[0] != []
    ensures Interleave(xs, sep) != []
  {
  }

  lemma DropLeadingEmptySnoc(xs: seq<seq<char>>, y: seq<char>)
    ensures DropLeadingEmpty(xs + [y]) ==
      if DropLeadingEmpty(xs) == [] then (if y == [] then [] else [y])
      else DropLeadingEmpty(xs) + [y]
  {
    if xs != [] {
      assert (xs + [y])[1..] == xs[1..] + [y];
      DropLeadingEmptySnoc(xs[1..], y);
    }
  }

  /** UString::Join(begin, end, separator): the separator is appended before an element
      only once the result is non-empty, so leading empty elements contribute nothing. */
  method Join(strs: seq<seq<char>>, separator: seq<char>) returns (res: seq<char>)
    ensures res == Interleave(DropLeadingEmpty(strs), separator)
  {
    res := [];
    var i := 0;
    while i < |strs|
      invariant 0 <= i <= |strs|
      invariant res == Interleave(DropLeadingEmpty(strs[..i]), separator)
      invariant res == [] <==> DropLeadingEmpty(strs[..i]) == []
    {
      JoinStep(strs[..i], strs[i], separator, res);
      assert strs[..i + 1] == strs[..i] + [strs[i]];
      if res != [] {
        res := res + separator;
      }
      res := res + strs[i];
      i := i + 1;
    }
    assert strs[..i] == strs;
  }

  /** The loop invariant of Join survives appending one more element. */
  lemma JoinStep(done: seq<seq<char>>, y: seq<char>, sep: seq<char>, res: seq<char>)
    requires res == Interleave(DropLeadingEmpty(done), sep)
    requires res == [] <==> DropLeadingEmpty(done) == []
    ensures var next := (if res != [] then res + sep else res) + y;
      next == Interleave(DropLeadingEmpty(done + [y]), sep)
      && (next == [] <==> DropLeadingEmpty(done + [y]) == [])
  {
    DropLeadingEmptySnoc(done, y);
    if DropLeadingEmpty(done) != [] {
      InterleaveSnoc(DropLeadingEmpty(done), y, sep);
      InterleaveNonEmpty(DropLeadingEmpty(done), sep);
    }
  }

  /** Join is the plain interleaving as soon as the first element is non-empty. */
  lemma JoinWithoutLeadingEmpty(strs: seq<seq<char>>, sep: seq<char>)
    requires strs == [] || strs[0] != []
    ensures Interleave(DropLeadingEmpty(strs), sep) == Interleave(strs, sep)
  {
  }

  /** A leading empty element is absorbed by Join: its separator is not emitted. */
  lemma JoinDropsLeadingEmpty(strs: seq<seq<char>>, sep: seq<char>)
    requires strs != [] && strs[0] == []
    ensures Interleave(DropLeadingEmpty(strs), sep) == Interleave(DropLeadingEmpty(strs[1..]), sep)
  {
  }

  /** Join undoes a plain split, when the string does not start with the separator
      (a leading empty segment would be absorbed by Join). */
  lemma JoinSplit(cs: seq<char>, c: char)
    requires cs == [] || cs[0] != c
    ensures Interleave(DropLeadingEmpty(Segments(Pieces(cs, c), false, false)), [c]) == cs
  {
    var pieces := Pieces(cs, c);
    SegmentsPlain(pieces);
    PiecesInterleave(cs, c);
    if cs != [] {
      assert IndexOf(cs, c) > 0;
      JoinWithoutLeadingEmpty(pieces, [c]);
    }
  }
}
