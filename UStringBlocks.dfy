/** UString::splitBlocks (tsUStringTemplate.h).

    splitBlocks cuts the c_str() view of a string into blocks that start with
    `startWith` and end with the matching `endWith`, counting nested blocks. The
    reference definition `Blocks` follows the scan with positions in that view;
    `Depth` gives the nesting level of a prefix, so that a closed block is one
    whose level comes back to zero only at its last character. */
module UStringBlocks {
  import opened UChars
  import opened UStringSplit

  /** The first position at or after i holding sw, or |cs| when there is none. */
  function NextOpen(cs: seq<char>, i: nat, sw: char): (j: nat)
    requires i <= |cs|
    ensures i <= j <= |cs|
    ensures j < |cs| ==> cs[j] == sw
    decreases |cs| - i
  {
    if i == |cs| || cs[i] == sw then i else NextOpen(cs, i + 1, sw)
  }

  /** The position where the scan for the end of a block stops, starting at j with
      `open` blocks still open: the ew that brings the count to zero, or |cs|.
      A character equal to sw always opens a block, even when it also equals ew. */
  function MatchEnd(cs: seq<char>, sw: char, ew: char, j: nat, open: int): (e: nat)
    requires j <= |cs|
    ensures j <= e <= |cs|
    decreases |cs| - j
  {
    if j == |cs| then j
    else if cs[j] == sw then MatchEnd(cs, sw, ew, j + 1, open + 1)
    else if cs[j] == ew && open - 1 == 0 then j
    else if cs[j] == ew then MatchEnd(cs, sw, ew, j + 1, open - 1)
    else MatchEnd(cs, sw, ew, j + 1, open)
  }

  /** The segments splitBlocks stores when it starts looking at position input. */
  function Blocks(cs: seq<char>, input: nat, sw: char, ew: char, trimSpaces: bool): (r: seq<seq<char>>)
    requires input <= |cs|
    ensures |r| >= 1
    decreases |cs| - input
  {
    var b := NextOpen(cs, input, sw);
    var e := MatchEnd(cs, sw, ew, b, 0);
    var raw := cs[b .. if e < |cs| then e + 1 else e];
    var seg := if trimSpaces then Trim(raw, true, true) else raw;
    if e + 1 < |cs| then [seg] + Blocks(cs, e + 1, sw, ew, trimSpaces) else [seg]
  }

  /** How much a character changes the nesting level. */
  function Delta(c: char, sw: char, ew: char): int
  {
    if c == sw then 1 else if c == ew then -1 else 0
  }

  /** The nesting level after reading x. */
  function Depth(x: seq<char>, sw: char, ew: char): int
  {
    if x == [] then 0 else Depth(x[..|x| - 1], sw, ew) + Delta(x[|x| - 1], sw, ew)
  }

  /** x stays inside its first block: every non-empty prefix leaves a block open. */
  predicate Unclosed(x: seq<char>, sw: char, ew: char)
  {
    forall k :: 0 < k <= |x| ==> Depth(x[..k], sw, ew) > 0
  }

  /** x is one complete block: its level is positive on every proper non-empty prefix
      and comes back to zero at its last character, an ew. */
  predicate Closed(x: seq<char>, sw: char, ew: char)
  {
    x != [] && x[|x| - 1] == ew && Depth(x, sw, ew) == 0
    && forall k :: 0 < k < |x| ==> Depth(x[..k], sw, ew) > 0
  }

  /** The scan for the end of the block keeps the level positive until it stops, and
      it stops on a closing character that brings the level to zero. */
  lemma {:induction false} MatchEndShape(cs: seq<char>, sw: char, ew: char, b: nat, j: nat, open: int)
    requires b < j <= |cs|
    requires open == Depth(cs[b..j], sw, ew)
    requires forall k :: b < k <= j ==> Depth(cs[b..k], sw, ew) > 0
    ensures var e := MatchEnd(cs, sw, ew, j, open);
      (forall k :: b < k <= e ==> Depth(cs[b..k], sw, ew) > 0)
      && (e < |cs| ==> cs[e] == ew && Depth(cs[b..e + 1], sw, ew) == 0)
    decreases |cs| - j
  {
    if j < |cs| {
      assert cs[b..j + 1][..j - b] == cs[b..j];
      var next := open + Delta(cs[j], sw, ew);
      assert Depth(cs[b..j + 1], sw, ew) == next;
      if cs[j] == ew && cs[j] != sw && open - 1 == 0 {
        assert MatchEnd(cs, sw, ew, j, open) == j;
      } else {
        assert next > 0;
        MatchEndShape(cs, sw, ew, b, j + 1, next);
        assert MatchEnd(cs, sw, ew, j, open) == MatchEnd(cs, sw, ew, j + 1, next);
      }
    }
  }

  /** A block found at an opening character is closed when the scan stops before the
      end, and unclosed when it runs off the end. */
  lemma BlockShape(cs: seq<char>, sw: char, ew: char, b: nat)
    requires b < |cs| && cs[b] == sw
    ensures var e := MatchEnd(cs, sw, ew, b, 0);
      (e < |cs| ==> Closed(cs[b..e + 1], sw, ew))
      && (e == |cs| ==> Unclosed(cs[b..], sw, ew))
  {
    assert cs[b..b + 1][..0] == [];
    assert Depth(cs[b..b + 1], sw, ew) == 1;
    MatchEndShape(cs, sw, ew, b, b + 1, 1);
    var e := MatchEnd(cs, sw, ew, b, 0);
    if e < |cs| {
      var x := cs[b..e + 1];
      forall k | 0 < k < |x| ensures Depth(x[..k], sw, ew) > 0 {
        assert x[..k] == cs[b..b + k];
      }
    } else {
      var x := cs[b..];
      forall k | 0 < k <= |x| ensures Depth(x[..k], sw, ew) > 0 {
        assert x[..k] == cs[b..b + k];
      }
    }
  }

  /** Without trimming, every segment is empty or starts with sw; every segment but
      the last is a complete block, and the last is complete or runs to the end. */
  lemma {:induction false} BlocksShape(cs: seq<char>, input: nat, sw: char, ew: char)
    requires input <= |cs|
    ensures forall k :: 0 <= k < |Blocks(cs, input, sw, ew, false)| ==>
      SegmentShape(Blocks(cs, input, sw, ew, false)[k], sw, ew, k < |Blocks(cs, input, sw, ew, false)| - 1)
    decreases |cs| - input
  {
    var r := Blocks(cs, input, sw, ew, false);
    var b := NextOpen(cs, input, sw);
    var e := MatchEnd(cs, sw, ew, b, 0);
    if b < |cs| {
      BlockShape(cs, sw, ew, b);
      if e == |cs| {
        assert cs[b..e] == cs[b..];
      }
      assert SegmentShape(r[0], sw, ew, false);
    } else {
      assert r[0] == [];
    }
    if e + 1 < |cs| {
      var rest := Blocks(cs, e + 1, sw, ew, false);
      BlocksShape(cs, e + 1, sw, ew);
      assert r == [cs[b..e + 1]] + rest;
      assert SegmentShape(r[0], sw, ew, true);
      forall k | 1 <= k < |r| ensures SegmentShape(r[k], sw, ew, k < |r| - 1) {
        assert r[k] == rest[k - 1];
      }
    }
  }

  /** t holds the strings of u, each trimmed. */
  predicate TrimmedEach(t: seq<seq<char>>, u: seq<seq<char>>)
  {
    |t| == |u| && forall k :: 0 <= k < |t| ==> t[k] == Trim(u[k], true, true)
  }

  lemma TrimmedEachCons(x: seq<char>, t: seq<seq<char>>, y: seq<char>, u: seq<seq<char>>)
    requires x == Trim(y, true, true) && TrimmedEach(t, u)
    ensures TrimmedEach([x] + t, [y] + u)
  {
    forall k | 1 <= k < |t| + 1 ensures ([x] + t)[k] == Trim(([y] + u)[k], true, true) {
      assert ([x] + t)[k] == t[k - 1] && ([y] + u)[k] == u[k - 1];
    }
  }

  /** With trimming, splitBlocks finds the same blocks and trims each of them. */
  lemma {:induction false} BlocksTrimmed(cs: seq<char>, input: nat, sw: char, ew: char)
    requires input <= |cs|
    ensures TrimmedEach(Blocks(cs, input, sw, ew, true), Blocks(cs, input, sw, ew, false))
    decreases |cs| - input
  {
    var b := NextOpen(cs, input, sw);
    var e := MatchEnd(cs, sw, ew, b, 0);
    var raw := cs[b .. if e < |cs| then e + 1 else e];
    var seg := Trim(raw, true, true);
    if e + 1 < |cs| {
      var t, u := Blocks(cs, e + 1, sw, ew, true), Blocks(cs, e + 1, sw, ew, false);
      BlocksTrimmed(cs, e + 1, sw, ew);
      TrimmedEachCons(seg, t, raw, u);
    }
    BlocksStep(cs, input, sw, ew, true, b, e, seg);
    BlocksStep(cs, input, sw, ew, false, b, e, raw);
  }

  /** A segment of splitBlocks without trimming: empty or starting with sw, and a
      complete block, or (for the last one only) a block that runs to the end. */
  predicate SegmentShape(x: seq<char>, sw: char, ew: char, notLast: bool)
  {
    (x == [] || x[0] == sw)
    && (notLast ==> Closed(x, sw, ew))
    && (x == [] || Closed(x, sw, ew) || Unclosed(x, sw, ew))
  }

  /** NextOpen skips only characters other than sw. */
  lemma {:induction false} NextOpenSkips(cs: seq<char>, i: nat, sw: char)
    requires i <= |cs|
    ensures forall k :: i <= k < NextOpen(cs, i, sw) ==> cs[k] != sw
    decreases |cs| - i
  {
    if i < |cs| && cs[i] != sw {
      NextOpenSkips(cs, i + 1, sw);
    }
  }

  /** Without sw, the opening scan runs to the end. */
  lemma {:induction false} NextOpenNone(cs: seq<char>, i: nat, sw: char)
    requires i <= |cs|
    requires forall k :: i <= k < |cs| ==> cs[k] != sw
    ensures NextOpen(cs, i, sw) == |cs|
    decreases |cs| - i
  {
    if i < |cs| {
      NextOpenNone(cs, i + 1, sw);
    }
  }

  /** Without any opening character, splitBlocks yields one segment: "". */
  lemma NoBlock(cs: seq<char>, input: nat, sw: char, ew: char, trimSpaces: bool)
    requires input <= |cs|
    requires forall k :: input <= k < |cs| ==> cs[k] != sw
    ensures Blocks(cs, input, sw, ew, trimSpaces) == [[]]
  {
    NextOpenNone(cs, input, sw);
    assert cs[|cs|..|cs|] == [];
  }

  /** UString::splitBlocks(container, startWith, endWith, trimSpaces). The container
      is cleared first, so it is returned. */
  method SplitBlocks(s: seq<char>, startWith: char, endWith: char, trimSpaces: bool)
    returns (container: seq<seq<char>>)
    ensures container == Blocks(CStr(s), 0, startWith, endWith, trimSpaces)
  {
    container := [];
    var input := 0;
    var more := true;
    while more
      invariant input <= |CStr(s)|
      invariant more ==> (Blocks(CStr(s), 0, startWith, endWith, trimSpaces)
        == container + Blocks(CStr(s), input, startWith, endWith, trimSpaces))
      invariant !more ==> Blocks(CStr(s), 0, startWith, endWith, trimSpaces) == container
      decreases |CStr(s)| - input, more
    {
      container, input, more := AppendBlock(s, startWith, endWith, trimSpaces, container, input);
    }
  }

  /** One turn of the loop of splitBlocks: the block found at position input is
      appended, and the scan goes on after its closing character while there is
      anything left. */
  method AppendBlock(s: seq<char>, startWith: char, endWith: char, trimSpaces: bool,
                     container: seq<seq<char>>, input: nat)
    returns (after: seq<seq<char>>, next: nat, more: bool)
    requires input <= |CStr(s)|
    requires Blocks(CStr(s), 0, startWith, endWith, trimSpaces)
      == container + Blocks(CStr(s), input, startWith, endWith, trimSpaces)
    ensures input < next <= |CStr(s)| || (!more && next == input)
    ensures more ==> (Blocks(CStr(s), 0, startWith, endWith, trimSpaces)
      == after + Blocks(CStr(s), next, startWith, endWith, trimSpaces))
    ensures !more ==> Blocks(CStr(s), 0, startWith, endWith, trimSpaces) == after
  {
    ghost var cs := CStr(s);
    ghost var total := Blocks(cs, 0, startWith, endWith, trimSpaces);
    var segment, sep;
    segment, sep, more := NextBlock(s, input, startWith, endWith, trimSpaces);
    after := container + [segment];
    BlocksAdvance(cs, input, startWith, endWith, trimSpaces, segment, sep, more, total, container, after);
    next := if more then sep + 1 else input;
  }

  /** The loop invariant of splitBlocks survives one iteration. */
  lemma BlocksAdvance(cs: seq<char>, input: nat, sw: char, ew: char, trimSpaces: bool, segment: seq<char>,
                      sep: nat, more: bool, total: seq<seq<char>>, before: seq<seq<char>>, after: seq<seq<char>>)
    requires input <= sep <= |cs| && (more <==> sep + 1 < |cs|)
    requires more ==> Blocks(cs, input, sw, ew, trimSpaces) == [segment] + Blocks(cs, sep + 1, sw, ew, trimSpaces)
    requires !more ==> Blocks(cs, input, sw, ew, trimSpaces) == [segment]
    requires total == before + Blocks(cs, input, sw, ew, trimSpaces)
    requires after == before + [segment]
    ensures more ==> total == after + Blocks(cs, sep + 1, sw, ew, trimSpaces)
    ensures !more ==> total == after
  {
  }

  /** One iteration of splitBlocks from position input: the block found there, and
      the position of its closing character (or of the end). */
  method NextBlock(s: seq<char>, input: nat, startWith: char, endWith: char, trimSpaces: bool)
    returns (segment: seq<char>, sep: nat, more: bool)
    requires input <= |CStr(s)|
    ensures input <= sep <= |CStr(s)| && (more <==> sep + 1 < |CStr(s)|)
    ensures more ==>
      Blocks(CStr(s), input, startWith, endWith, trimSpaces)
      == [segment] + Blocks(CStr(s), sep + 1, startWith, endWith, trimSpaces)
    ensures !more ==> Blocks(CStr(s), input, startWith, endWith, trimSpaces) == [segment]
  {
    ghost var cs := CStr(s);
    // Locate the next block-opening character.
    var open := SkipToOpen(s, input, startWith);
    // Locate the block-ending character that matches it.
    sep := FindClose(s, open, startWith, endWith);
    AtCStr(s, sep);
    var len := sep - open + (if At(s, sep) == '\0' then 0 else 1);
    assert open + len == if sep < |cs| then sep + 1 else sep;
    CStrSlice(s, open, open + len);
    segment := s[open..open + len];
    assert segment == cs[open .. if sep < |cs| then sep + 1 else sep];
    if trimSpaces {
      segment := Trim(segment, true, true);
    }
    BlocksStep(cs, input, startWith, endWith, trimSpaces, open, sep, segment);
    if sep + 1 <= |cs| {
      AtCStr(s, sep + 1);
    }
    // The scan goes on while neither the closing character nor the one after it
    // is the end of the string.
    more := At(s, sep) != '\0' && At(s, sep + 1) != '\0';
  }

  /** Blocks from position input starts with the block found there. */
  lemma BlocksStep(cs: seq<char>, input: nat, sw: char, ew: char, trimSpaces: bool,
                   b: nat, e: nat, segment: seq<char>)
    requires input <= |cs|
    requires b == NextOpen(cs, input, sw) && e == MatchEnd(cs, sw, ew, b, 0)
    requires var raw := cs[b .. if e < |cs| then e + 1 else e];
      segment == if trimSpaces then Trim(raw, true, true) else raw
    ensures e + 1 < |cs| ==> Blocks(cs, input, sw, ew, trimSpaces) == [segment] + Blocks(cs, e + 1, sw, ew, trimSpaces)
    ensures e + 1 >= |cs| ==> Blocks(cs, input, sw, ew, trimSpaces) == [segment]
  {
  }

  /** `while (*input != startWith && *input != 0) ++input;` */
  method SkipToOpen(s: seq<char>, input: nat, startWith: char) returns (j: nat)
    requires input <= |CStr(s)|
    ensures j == NextOpen(CStr(s), input, startWith)
  {
    ghost var cs := CStr(s);
    j := input;
    AtCStr(s, j);
    while At(s, j) != startWith && At(s, j) != '\0'
      invariant input <= j <= |cs|
      invariant NextOpen(cs, j, startWith) == NextOpen(cs, input, startWith)
      decreases |cs| - j
    {
      j := j + 1;
      AtCStr(s, j);
    }
  }

  /** The scan for the block-ending character, counting the blocks still open. */
  method FindClose(s: seq<char>, input: nat, startWith: char, endWith: char) returns (sep: nat)
    requires input <= |CStr(s)|
    ensures sep == MatchEnd(CStr(s), startWith, endWith, input, 0)
  {
    ghost var cs := CStr(s);
    var blocksStillOpen := 0;
    sep := input;
    AtCStr(s, sep);
    while At(s, sep) != '\0'
      invariant input <= sep <= |cs|
      invariant MatchEnd(cs, startWith, endWith, sep, blocksStillOpen) == MatchEnd(cs, startWith, endWith, input, 0)
      decreases |cs| - sep
    {
      if At(s, sep) == startWith {
        blocksStillOpen := blocksStillOpen + 1;
        sep := sep + 1;
        AtCStr(s, sep);
        continue;
      }
      if At(s, sep) == endWith {
        blocksStillOpen := blocksStillOpen - 1;
        if blocksStillOpen == 0 {
          break;
        }
      }
      sep := sep + 1;
      AtCStr(s, sep);
    }
  }
}
