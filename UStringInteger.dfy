/** UString::toInteger and UString::toIntegers (tsUStringTemplate.h).

    toInteger recognises an optional sign, an optional "0x"/"0X" prefix and a
    sequence of digits interleaved with thousands separators, after trimming
    white space. `Lex` describes the first three steps, `Horner` the value the
    digits denote, and `ToIntegerSpec` the complete outcome, including the
    machine wrap-around of `value * base + digit` in the integral type. */
module UStringInteger {
  import opened IntTypes
  import opened UChars
  import opened Optional

  /** A literal once the white space, the sign and the base prefix are consumed. */
  datatype Literal = Literal(negative: bool, base: nat, digits: seq<char>)

  /** True exactly when s starts with "0x" or "0X". */
  predicate HexPrefixed(s: seq<char>)
  {
    |s| >= 2 && s[0] == '0' && (s[1] == 'x' || s[1] == 'X')
  }

  /** The sign, base and digit part of s, or None for the early returns of toInteger:
      a '-' for an unsigned type, or nothing left after the sign and prefix. */
  function Lex(s: seq<char>, signed: bool): (r: Option<Literal>)
    ensures r.Some? ==> r.value.digits != [] && (r.value.base == 10 || r.value.base == 16)
    ensures r.Some? && r.value.negative ==> signed
  {
    LexBody(Trim(s, true, true), signed)
  }

  /** Number of sign characters at the head of body: 0 or 1. */
  function SignLen(body: seq<char>): nat
  {
    if body != [] && (body[0] == '+' || body[0] == '-') then 1 else 0
  }

  /** Lex on a string that is already trimmed. */
  function LexBody(body: seq<char>, signed: bool): (r: Option<Literal>)
    ensures r.Some? ==> r.value.digits != [] && (r.value.base == 10 || r.value.base == 16)
    ensures r.Some? && r.value.negative ==> signed
  {
    var negative := body != [] && body[0] == '-';
    if negative && !signed then None
    else
      var rest := body[SignLen(body)..];
      var digits := if HexPrefixed(rest) then rest[2..] else rest;
      if digits == [] then None
      else Some(Literal(negative, if HexPrefixed(rest) then 16 else 10, digits))
  }

  /** True when c may appear in the digit part: a digit of the base or a separator. */
  predicate Accepted(c: char, base: nat, seps: seq<char>)
  {
    ToDigit(c, base) >= 0 || c in seps
  }

  /** The length of the longest prefix of d made of accepted characters. */
  function ValidLen(d: seq<char>, base: nat, seps: seq<char>): (n: nat)
    ensures n <= |d|
    ensures forall k :: 0 <= k < n ==> Accepted(d[k], base, seps)
    ensures n < |d| ==> !Accepted(d[n], base, seps)
  {
    if d == [] || !Accepted(d[0], base, seps) then 0 else 1 + ValidLen(d[1..], base, seps)
  }

  /** ValidLen is determined by its defining properties. */
  lemma ValidLenIs(d: seq<char>, base: nat, seps: seq<char>, n: nat)
    requires n <= |d|
    requires forall k :: 0 <= k < n ==> Accepted(d[k], base, seps)
    requires n < |d| ==> !Accepted(d[n], base, seps)
    ensures ValidLen(d, base, seps) == n
  {
  }

  /** The unbounded value of the digits of d in the base, read left to right;
      characters that are not digits of the base are skipped. */
  function Horner(d: seq<char>, base: nat): nat
  {
    if d == [] then 0
    else
      var h := Horner(d[..|d| - 1], base);
      var c := ToDigit(d[|d| - 1], base);
      if c >= 0 then h * base + c else h
  }

  /** The outcome of toInteger(value, thousandSeparators) on type t: the boolean
      result and the final content of `value`. */
  function ToIntegerSpec(s: seq<char>, t: IntType, seps: seq<char>): (r: (bool, int))
    requires t.Valid()
    ensures t.Contains(r.1)
    ensures r.0 ==> Lex(s, t.signed).Some?
    ensures Lex(s, t.signed).None? ==> r == (false, 0)
  {
    match Lex(s, t.signed)
    case None => (false, 0)
    case Some(lit) =>
      var n := ValidLen(lit.digits, lit.base, seps);
      var acc := t.Wrap(Horner(lit.digits[..n], lit.base));
      (n == |lit.digits|, if lit.negative then t.Wrap(-acc) else acc)
  }

  /** The number a literal denotes, unbounded and with its sign. */
  function SignedValue(lit: Literal): int
  {
    if lit.negative then -(Horner(lit.digits, lit.base) as int) else Horner(lit.digits, lit.base)
  }

  /** On success, the value is the literal's number with its sign, reduced modulo
      2^bits; when that number fits the type, it is the number itself. */
  lemma ToIntegerValue(s: seq<char>, t: IntType, seps: seq<char>)
    requires t.Valid()
    requires ToIntegerSpec(s, t, seps).0
    ensures ToIntegerSpec(s, t, seps).1 == t.Wrap(SignedValue(Lex(s, t.signed).value))
    ensures t.Contains(SignedValue(Lex(s, t.signed).value)) ==>
      ToIntegerSpec(s, t, seps).1 == SignedValue(Lex(s, t.signed).value)
  {
    var lit := Lex(s, t.signed).value;
    assert lit.digits[..|lit.digits|] == lit.digits;
    if lit.negative {
      WrapNeg(t, Horner(lit.digits, lit.base));
    }
  }

  /** A literal with no digit after the sign and the prefix (such as "", "-", "0x"
      or "+0X") makes toInteger fail and leave 0. */
  lemma ToIntegerNoDigits(s: seq<char>, t: IntType, seps: seq<char>)
    requires t.Valid()
    requires var body := Trim(s, true, true);
      var rest := body[SignLen(body)..];
      rest == [] || (HexPrefixed(rest) && |rest| == 2)
    ensures ToIntegerSpec(s, t, seps) == (false, 0)
  {
  }

  /** toInteger succeeds exactly when there is a digit part and every one of its
      characters is a digit of the base or a thousands separator. */
  lemma ToIntegerSucceeds(s: seq<char>, t: IntType, seps: seq<char>)
    requires t.Valid()
    ensures ToIntegerSpec(s, t, seps).0 <==>
      Lex(s, t.signed).Some?
      && forall k :: 0 <= k < |Lex(s, t.signed).value.digits| ==>
           Accepted(Lex(s, t.signed).value.digits[k], Lex(s, t.signed).value.base, seps)
  {
    if Lex(s, t.signed).Some? {
      var lit := Lex(s, t.signed).value;
      var n := ValidLen(lit.digits, lit.base, seps);
      if n < |lit.digits| {
        assert !Accepted(lit.digits[n], lit.base, seps);
      }
    }
  }

  /** A '-' makes toInteger fail on an unsigned type, with value 0. */
  lemma ToIntegerUnsignedNegative(s: seq<char>, t: IntType, seps: seq<char>)
    requires t.Valid() && !t.signed
    requires var body := Trim(s, true, true); body != [] && body[0] == '-'
    ensures ToIntegerSpec(s, t, seps) == (false, 0)
  {
  }

  /** Characters that are neither digits nor separators make toInteger fail. */
  lemma ToIntegerRejectsOthers(s: seq<char>, t: IntType, seps: seq<char>, k: nat)
    requires t.Valid()
    requires Lex(s, t.signed).Some?
    requires var lit := Lex(s, t.signed).value;
      k < |lit.digits| && !Accepted(lit.digits[k], lit.base, seps)
    ensures !ToIntegerSpec(s, t, seps).0
  {
  }

  /** Trimming leading white space one character at a time. */
  lemma TrimLeadingStep(s: seq<char>, i: nat)
    requires i < |s| && IsSpace(s[i])
    ensures TrimLeading(s[i..]) == TrimLeading(s[i + 1..])
  {
    assert s[i..][1..] == s[i + 1..];
  }

  /** Trimming trailing white space one character at a time. */
  lemma TrimTrailingStep(s: seq<char>, i: nat, j: nat)
    requires i < j <= |s| && IsSpace(s[j - 1])
    ensures TrimTrailing(s[i..j]) == TrimTrailing(s[i..j - 1])
  {
    assert s[i..j][..j - i - 1] == s[i..j - 1];
  }

  /** One more character read by the decoding loop. */
  lemma HornerSnoc(d: seq<char>, i: nat, base: nat)
    requires i < |d|
    ensures Horner(d[..i + 1], base) ==
      if ToDigit(d[i], base) >= 0 then Horner(d[..i], base) * base + ToDigit(d[i], base)
      else Horner(d[..i], base)
  {
    assert d[..i + 1][..i] == d[..i];
  }

  /** toInteger(value, thousandSeparators) on the integral type t. */
  method ToInteger(s: seq<char>, t: IntType, seps: seq<char>) returns (ok: bool, value: int)
    requires t.Valid()
    ensures (ok, value) == ToIntegerSpec(s, t, seps)
  {
    value := 0;
    // Locate actual begin and end of the integer value.
    var first, end := TrimBounds(s);
    var found, start, negative, base := ScanPrefix(s, first, end, t.signed);
    if !found {
      return false, value;
    }
    // Decode the digits.
    var stop;
    stop, value := DecodeDigits(s, start, end, t, base, seps);
    ghost var acc := value;
    // Apply the sign.
    if negative {
      value := t.Wrap(-value);
    }
    ok := stop == end;
    ToIntegerSpecIs(s, t, seps, Literal(negative, base, s[start..end]), stop - start, acc);
  }

  /** The sign and base prefix of toInteger, on the trimmed text s[first..end]: found
      is false for the early returns, and otherwise the digits are s[start..end]. */
  method ScanPrefix(s: seq<char>, first: nat, end: nat, signed: bool)
    returns (found: bool, start: nat, negative: bool, base: nat)
    requires first <= end <= |s|
    ensures !found ==> LexBody(s[first..end], signed) == None
    ensures found ==> start < end && LexBody(s[first..end], signed) == Some(Literal(negative, base, s[start..end]))
  {
    ghost var body := s[first..end];
    start := first;
    // Skip the optional sign.
    negative := false;
    if start < end {
      if s[start] == '+' {
        start := start + 1;
      } else if s[start] == '-' {
        if !signed {
          LexUnsignedNegative(body);
          return false, start, negative, 10;
        }
        start := start + 1;
        negative := true;
      }
    }
    assert start - first == SignLen(body);
    // Look for the hexadecimal prefix.
    base := 10;
    if start + 1 < end && s[start] == '0' && (s[start + 1] == 'x' || s[start + 1] == 'X') {
      start := start + 2;
      base := 16;
    }
    LexBodyAt(s, first, end, signed, start, negative, base);
    found := start < end;
  }

  /** ToIntegerSpec once the literal, its valid length and the accumulated value are known. */
  lemma ToIntegerSpecIs(s: seq<char>, t: IntType, seps: seq<char>, lit: Literal, n: nat, acc: int)
    requires t.Valid() && Lex(s, t.signed) == Some(lit)
    requires n == ValidLen(lit.digits, lit.base, seps)
    requires acc == t.Wrap(Horner(lit.digits[..n], lit.base))
    ensures ToIntegerSpec(s, t, seps) == (n == |lit.digits|, if lit.negative then t.Wrap(-acc) else acc)
  {
  }

  /** A '-' on an unsigned type is an early failure. */
  lemma LexUnsignedNegative(body: seq<char>)
    requires body != [] && body[0] == '-'
    ensures LexBody(body, false) == None
  {
  }

  /** The sign and prefix scan of toInteger, in terms of LexBody. */
  lemma LexBodyAt(s: seq<char>, first: nat, end: nat, signed: bool, start: nat, negative: bool, base: nat)
    requires first <= end <= |s|
    requires negative <==> first < end && s[first] == '-'
    requires negative ==> signed
    requires start - first >= SignLen(s[first..end])
    requires var k := first + SignLen(s[first..end]);
      var hex := k + 1 < end && s[k] == '0' && (s[k + 1] == 'x' || s[k + 1] == 'X');
      start == k + (if hex then 2 else 0) && base == (if hex then 16 else 10)
    ensures start <= end
    ensures start == end ==> LexBody(s[first..end], signed) == None
    ensures start < end ==> LexBody(s[first..end], signed) == Some(Literal(negative, base, s[start..end]))
  {
    var body := s[first..end];
    var k := first + SignLen(body);
    assert body[SignLen(body)..] == s[k..end];
    var rest := s[k..end];
    var hex := k + 1 < end && s[k] == '0' && (s[k + 1] == 'x' || s[k + 1] == 'X');
    assert HexPrefixed(rest) == hex;
    if hex {
      assert start == k + 2 && base == 16;
      assert rest[2..] == s[start..end];
    } else {
      assert start == k && base == 10 && rest == s[start..end];
    }
  }

  /** `s[start..end]` is the trimmed string: the two pointer loops of toInteger. */
  method TrimBounds(s: seq<char>) returns (start: nat, end: nat)
    ensures start <= end <= |s|
    ensures s[start..end] == Trim(s, true, true)
  {
    start := 0;
    end := |s|;
    while start < end && IsSpace(s[start])
      invariant start <= end == |s|
      invariant TrimLeading(s[start..]) == TrimLeading(s)
    {
      TrimLeadingStep(s, start);
      start := start + 1;
    }
    assert TrimLeading(s) == s[start..end];
    while start < end && IsSpace(s[end - 1])
      invariant start <= end <= |s|
      invariant TrimTrailing(s[start..end]) == Trim(s, true, true)
    {
      TrimTrailingStep(s, start, end);
      end := end - 1;
    }
  }

  /** The digit loop of toInteger over s[start..end]: it stops at the first character
      that is neither a digit nor a separator, and accumulates with wrap-around. */
  method DecodeDigits(s: seq<char>, start: nat, end: nat, t: IntType, base: nat, seps: seq<char>)
    returns (stop: nat, value: int)
    requires start <= end <= |s| && t.Valid()
    ensures stop - start == ValidLen(s[start..end], base, seps)
    ensures stop <= end
    ensures value == t.Wrap(Horner(s[start..end][..stop - start], base))
  {
    ghost var d := s[start..end];
    value := 0;
    stop := start;
    while stop < end
      invariant start <= stop <= end
      invariant forall k :: 0 <= k < stop - start ==> Accepted(d[k], base, seps)
      invariant value == t.Wrap(Horner(d[..stop - start], base))
    {
      var digit := ToDigit(s[stop], base);
      assert s[stop] == d[stop - start];
      HornerSnoc(d, stop - start, base);
      if digit >= 0 {
        WrapMulAdd(t, Horner(d[..stop - start], base), base, digit);
        value := t.Wrap(value * base + digit);
      } else if s[stop] !in seps {
        break;
      }
      stop := stop + 1;
    }
    ValidLenIs(d, base, seps, stop - start);
  }

  // ---------------------------------------------------------------------------
  // toIntegers
  // ---------------------------------------------------------------------------

  /** Separates two list items: white space or a list separator. */
  predicate Skipped(c: char, listSeps: seq<char>)
  {
    IsSpace(c) || c in listSeps
  }

  /** The first index from i on that is not skipped, or |s|. */
  function SkipList(s: seq<char>, i: nat, listSeps: seq<char>): (j: nat)
    requires i <= |s|
    ensures i <= j <= |s|
    ensures forall k :: i <= k < j ==> Skipped(s[k], listSeps)
    ensures j < |s| ==> !Skipped(s[j], listSeps)
    decreases |s| - i
  {
    if i < |s| && Skipped(s[i], listSeps) then SkipList(s, i + 1, listSeps) else i
  }

  /** The first list separator from i on, or |s|. */
  function SegmentEnd(s: seq<char>, i: nat, listSeps: seq<char>): (j: nat)
    requires i <= |s|
    ensures i <= j <= |s|
    ensures forall k :: i <= k < j ==> s[k] !in listSeps
    ensures j < |s| ==> s[j] in listSeps
    decreases |s| - i
  {
    if i < |s| && s[i] !in listSeps then SegmentEnd(s, i + 1, listSeps) else i
  }

  /** The items toIntegers decodes, from index `start` on, in order. */
  function ListSegments(s: seq<char>, listSeps: seq<char>, start: nat): seq<seq<char>>
    requires start <= |s|
    decreases |s| - start
  {
    var b := SkipList(s, start, listSeps);
    if b >= |s| then []
    else
      var e := SegmentEnd(s, b, listSeps);
      [s[b..e]] + ListSegments(s, listSeps, e)
  }

  /** Every item is non-empty, starts with a character that is neither white space
      nor a list separator, and holds no list separator. */
  lemma {:induction false} ListSegmentsShape(s: seq<char>, listSeps: seq<char>, start: nat)
    requires start <= |s|
    ensures forall k :: 0 <= k < |ListSegments(s, listSeps, start)| ==>
      var item := ListSegments(s, listSeps, start)[k];
      item != [] && !Skipped(item[0], listSeps) && (forall c :: c in listSeps ==> c !in item)
    decreases |s| - start
  {
    var b := SkipList(s, start, listSeps);
    if b < |s| {
      var e := SegmentEnd(s, b, listSeps);
      ListSegmentsShape(s, listSeps, e);
      var segs := ListSegments(s, listSeps, start);
      forall k | 0 <= k < |segs|
        ensures segs[k] != [] && !Skipped(segs[k][0], listSeps)
          && (forall c :: c in listSeps ==> c !in segs[k])
      {
        if k > 0 {
          assert segs[k] == ListSegments(s, listSeps, e)[k - 1];
        }
      }
    }
  }

  /** gaps[0] + items[0] + gaps[1] + ... + items[n-1] + gaps[n]. */
  function Weave(gaps: seq<seq<char>>, items: seq<seq<char>>): seq<char>
    requires |gaps| == |items| + 1
    decreases |items|
  {
    if items == [] then gaps[0] else gaps[0] + items[0] + Weave(gaps[1..], items[1..])
  }

  /** Every character of every gap is white space or a list separator. */
  predicate GapsSkipped(gaps: seq<seq<char>>, listSeps: seq<char>)
  {
    forall j, k :: 0 <= j < |gaps| && 0 <= k < |gaps[j]| ==> Skipped(gaps[j][k], listSeps)
  }

  lemma WeaveCons(g: seq<char>, x: seq<char>, gaps: seq<seq<char>>, items: seq<seq<char>>)
    requires |gaps| == |items| + 1
    ensures Weave([g] + gaps, [x] + items) == g + x + Weave(gaps, items)
  {
    assert ([g] + gaps)[1..] == gaps && ([x] + items)[1..] == items;
  }

  lemma GapsSkippedCons(g: seq<char>, gaps: seq<seq<char>>, listSeps: seq<char>)
    requires forall k :: 0 <= k < |g| ==> Skipped(g[k], listSeps)
    requires GapsSkipped(gaps, listSeps)
    ensures GapsSkipped([g] + gaps, listSeps)
  {
    forall j, k | 0 <= j < |gaps| + 1 && 0 <= k < |([g] + gaps)[j]| ensures Skipped(([g] + gaps)[j][k], listSeps) {
      if j > 0 {
        assert ([g] + gaps)[j] == gaps[j - 1];
      }
    }
  }

  lemma SliceThree(s: seq<char>, i: nat, j: nat, k: nat)
    requires i <= j <= k <= |s|
    ensures s[i..] == s[i..j] + s[j..k] + s[k..]
  {
  }

  /** The items tile the input with gaps between them, and every character of a gap
      is white space or a list separator: nothing else is dropped. */
  lemma {:induction false} ListSegmentsCover(s: seq<char>, listSeps: seq<char>, start: nat)
    returns (gaps: seq<seq<char>>)
    requires start <= |s|
    ensures |gaps| == |ListSegments(s, listSeps, start)| + 1
    ensures Weave(gaps, ListSegments(s, listSeps, start)) == s[start..]
    ensures GapsSkipped(gaps, listSeps)
    decreases |s| - start
  {
    var b := SkipList(s, start, listSeps);
    ListSegmentsStep(s, listSeps, start);
    if b >= |s| {
      gaps := [s[start..]];
      assert GapsSkipped(gaps, listSeps) by {
        GapsSkippedCons(s[start..], [], listSeps);
      }
    } else {
      var e := SegmentEnd(s, b, listSeps);
      var items := ListSegments(s, listSeps, e);
      var rest := ListSegmentsCover(s, listSeps, e);
      gaps := [s[start..b]] + rest;
      WeaveCons(s[start..b], s[b..e], rest, items);
      SliceThree(s, start, b, e);
      GapsSkippedCons(s[start..b], rest, listSeps);
    }
  }

  /** values[j] is the value of items[j], decoded successfully, for every j. */
  predicate DecodedPrefix(items: seq<seq<char>>, values: seq<int>, t: IntType, seps: seq<char>)
    requires t.Valid()
  {
    |values| <= |items|
    && forall j :: 0 <= j < |values| ==> ToIntegerSpec(items[j], t, seps) == (true, values[j])
  }

  /** toIntegers(container, thousandSeparators, listSeparators) on element type t. */
  method ToIntegers(s: seq<char>, t: IntType, seps: seq<char>, listSeps: seq<char>)
    returns (ok: bool, container: seq<int>)
    requires t.Valid()
    ensures var items := ListSegments(s, listSeps, 0);
      DecodedPrefix(items, container, t, seps)
      && (ok <==> forall k :: 0 <= k < |items| ==> ToIntegerSpec(items[k], t, seps).0)
      && (ok ==> |container| == |items|)
      && (!ok ==> |container| < |items| && !ToIntegerSpec(items[|container|], t, seps).0)
  {
    ghost var items := ListSegments(s, listSeps, 0);
    container := [];
    var start := 0;
    var farEnd := |s|;
    while start < farEnd
      invariant start <= farEnd
      invariant |container| <= |items|
      invariant items == items[..|container|] + ListSegments(s, listSeps, start)
      invariant DecodedPrefix(items, container, t, seps)
      decreases farEnd - start
    {
      // Skip spaces and list separators.
      ghost var from := start;
      while start < farEnd && Skipped(s[start], listSeps)
        invariant from <= start <= farEnd
        invariant SkipList(s, start, listSeps) == SkipList(s, from, listSeps)
      {
        start := start + 1;
      }
      var end := start;
      while end < farEnd && s[end] !in listSeps
        invariant start <= end <= farEnd
        invariant SegmentEnd(s, end, listSeps) == SegmentEnd(s, start, listSeps)
      {
        end := end + 1;
      }
      if start >= farEnd {
        ItemsEnd(items, |container|);
        break;
      }
      ListSegmentsStep(s, listSeps, from);
      ItemsStep(items, |container|, s[start..end], ListSegments(s, listSeps, end));
      var valid, value := ToInteger(s[start..end], t, seps);
      if !valid {
        DecodedAllOk(items, container, t, seps);
        return false, container;
      }
      DecodedSnoc(items, container, value, t, seps);
      container := container + [value];
      start := end;
    }
    DecodedAllOk(items, container, t, seps);
    ok := true;
  }

  /** One item of toIntegers: skip the separators, then read up to the next list separator. */
  lemma ListSegmentsStep(s: seq<char>, listSeps: seq<char>, start: nat)
    requires start <= |s|
    ensures var b := SkipList(s, start, listSeps);
      b < |s| ==>
        ListSegments(s, listSeps, start)
        == [s[b..SegmentEnd(s, b, listSeps)]] + ListSegments(s, listSeps, SegmentEnd(s, b, listSeps))
    ensures SkipList(s, start, listSeps) >= |s| ==> ListSegments(s, listSeps, start) == []
  {
  }

  lemma ItemsStep<T>(items: seq<T>, k: nat, x: T, rest: seq<T>)
    requires k <= |items| && items == items[..k] + ([x] + rest)
    ensures k < |items| && items[k] == x && items == items[..k + 1] + rest
  {
    assert items[..k + 1] == items[..k] + [x];
  }

  lemma ItemsEnd<T>(items: seq<T>, k: nat)
    requires k <= |items| && items == items[..k] + []
    ensures |items| == k
  {
  }

  lemma DecodedSnoc(items: seq<seq<char>>, values: seq<int>, v: int, t: IntType, seps: seq<char>)
    requires t.Valid()
    requires DecodedPrefix(items, values, t, seps) && |values| < |items|
    requires ToIntegerSpec(items[|values|], t, seps) == (true, v)
    ensures DecodedPrefix(items, values + [v], t, seps)
  {
  }

  /** The element at the failure point decides the outcome of toIntegers. */
  lemma DecodedAllOk(items: seq<seq<char>>, values: seq<int>, t: IntType, seps: seq<char>)
    requires t.Valid()
    requires DecodedPrefix(items, values, t, seps)
    ensures |values| == |items| ==> forall k :: 0 <= k < |items| ==> ToIntegerSpec(items[k], t, seps).0
    ensures |values| < |items| && !ToIntegerSpec(items[|values|], t, seps).0 ==>
      !(forall k :: 0 <= k < |items| ==> ToIntegerSpec(items[k], t, seps).0)
  {
  }
}
