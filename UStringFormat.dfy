/** UString::Decimal and UString::Hexa (tsUStringTemplate.h).

    Both build their result in reverse order: the lowest digit first, a reversed
    separator after every group, the sign or prefix last, and then reverse the
    whole string. `GroupedRev` describes that reversed text; the reference
    definitions `DecimalSpec` and `HexaSpec` are written in reading order with
    `Grouped`, and `GroupedRevReverse` connects the two. */
module UStringFormat {
  import opened IntTypes
  import opened UChars

  /** The character of the decimal digit d. */
  function DigitChar(d: nat): char
    requires d < 10
  {
    ('0' as int + d) as char
  }

  /** The character of the hexadecimal digit n, in upper or lower case. */
  function HexChar(n: nat, upper: bool): char
    requires n < 16
  {
    if n < 10 then ('0' as int + n) as char
    else if upper then ('A' as int + n - 10) as char
    else ('a' as int + n - 10) as char
  }

  /** The decimal digits of n, most significant first, without leading zeros. */
  function DecimalDigits(n: nat): (r: seq<char>)
    ensures |r| >= 1
  {
    if n < 10 then [DigitChar(n)] else DecimalDigits(n / 10) + [DigitChar(n % 10)]
  }

  /** The decimal digits of n, least significant first. */
  function RevDecimal(n: nat): (r: seq<char>)
    ensures |r| >= 1
  {
    if n < 10 then [DigitChar(n)] else [DigitChar(n % 10)] + RevDecimal(n / 10)
  }

  /** The w lowest hexadecimal digits of v, most significant first. For a negative v
      these are the digits of its two's-complement representation. */
  function Nibbles(v: int, w: nat, upper: bool): (r: seq<char>)
    ensures |r| == w
    decreases w
  {
    if w == 0 then [] else Nibbles(v / 16, w - 1, upper) + [HexChar(v % 16, upper)]
  }

  /** The w lowest hexadecimal digits of v, least significant first. */
  function RevNibbles(v: int, w: nat, upper: bool): (r: seq<char>)
    ensures |r| == w
    decreases w
  {
    if w == 0 then [] else [HexChar(v % 16, upper)] + RevNibbles(v / 16, w - 1, upper)
  }

  /** ds with sep between groups of `size` characters, counted from the right. */
  function Grouped(ds: seq<char>, sep: seq<char>, size: nat): seq<char>
    requires size > 0
    decreases |ds|
  {
    if |ds| <= size then ds
    else Grouped(ds[..|ds| - size], sep, size) + sep + ds[|ds| - size..]
  }

  /** r with rsep between groups of `size` characters, counted from the left: the
      reversed form of Grouped. */
  function GroupedRev(r: seq<char>, rsep: seq<char>, size: nat): seq<char>
    requires size > 0
    decreases |r|
  {
    if |r| <= size then r
    else r[..size] + rsep + GroupedRev(r[size..], rsep, size)
  }

  /** n copies of c. */
  function Repeat(c: char, n: nat): (r: seq<char>)
    ensures |r| == n
    ensures forall i :: 0 <= i < n ==> r[i] == c
  {
    if n == 0 then [] else [c] + Repeat(c, n - 1)
  }

  /** s padded with `pad` to at least minWidth characters, on the left if right-justified. */
  function Justify(s: seq<char>, minWidth: nat, rightJustified: bool, pad: char): (r: seq<char>)
    ensures |s| >= minWidth ==> r == s
    ensures |s| < minWidth ==> |r| == minWidth
    ensures rightJustified ==> r == Repeat(pad, |r| - |s|) + s
    ensures !rightJustified ==> r == s + Repeat(pad, |r| - |s|)
  {
    if |s| >= minWidth then s
    else if rightJustified then Repeat(pad, minWidth - |s|) + s
    else s + Repeat(pad, minWidth - |s|)
  }

  /** The sign Decimal writes: '-' for a negative value, '+' when forced, else nothing. */
  function SignText(value: int, forceSign: bool): (r: seq<char>)
    ensures |r| <= 1
  {
    if value < 0 then "-" else if forceSign then "+" else ""
  }

  /** The reference result of Decimal: the sign ('-' for a negative value, '+' when
      forced), the decimal digits of |value| in groups of three, then the padding. */
  function DecimalSpec(value: int, minWidth: nat, rightJustified: bool, separator: seq<char>,
                       forceSign: bool, pad: char): seq<char>
  {
    var magnitude := if value < 0 then -value else value;
    Justify(SignText(value, forceSign) + Grouped(DecimalDigits(magnitude), separator, 3), minWidth, rightJustified, pad)
  }

  /** The reference result of Hexa: the optional "0x" prefix, then `width` hexadecimal
      digits (two per byte of the type when width is 0) in groups of four. */
  function HexaSpec(t: IntType, value: int, width: nat, separator: seq<char>,
                    usePrefix: bool, useUpper: bool): seq<char>
    requires t.Valid()
  {
    var w := if width == 0 then 2 * t.Size() else width;
    (if usePrefix then "0x" else "") + Grouped(Nibbles(value, w, useUpper), separator, 4)
  }

  // ---------------------------------------------------------------------------
  // Reversal lemmas
  // ---------------------------------------------------------------------------

  lemma {:induction false} RevDecimalReverse(n: nat)
    ensures Reverse(RevDecimal(n)) == DecimalDigits(n)
  {
    if n >= 10 {
      RevDecimalReverse(n / 10);
      ReverseConcat([DigitChar(n % 10)], RevDecimal(n / 10));
    }
  }

  lemma {:induction false} RevNibblesReverse(v: int, w: nat, upper: bool)
    ensures Reverse(RevNibbles(v, w, upper)) == Nibbles(v, w, upper)
    decreases w
  {
    if w > 0 {
      RevNibblesReverse(v / 16, w - 1, upper);
      ReverseConcat([HexChar(v % 16, upper)], RevNibbles(v / 16, w - 1, upper));
    }
  }

  /** Grouping the reversed text from the left and reversing it groups the text
      from the right. */
  lemma {:induction false} GroupedRevReverse(ds: seq<char>, sep: seq<char>, size: nat)
    requires size > 0
    ensures Reverse(GroupedRev(Reverse(ds), Reverse(sep), size)) == Grouped(ds, sep, size)
    decreases |ds|
  {
    var r := Reverse(ds);
    if |ds| <= size {
      ReverseReverse(ds);
    } else {
      var k := |ds| - size;
      var head, tail := ds[..k], ds[k..];
      assert ds == head + tail;
      ReverseConcat(head, tail);
      assert r == Reverse(tail) + Reverse(head);
      assert r[..size] == Reverse(tail);
      assert r[size..] == Reverse(head);
      GroupedRevReverse(head, sep, size);
      var g := GroupedRev(Reverse(head), Reverse(sep), size);
      ReverseConcat(Reverse(tail) + Reverse(sep), g);
      ReverseConcat(Reverse(tail), Reverse(sep));
      ReverseReverse(tail);
      ReverseReverse(sep);
    }
  }

  /** Appending one character to the reversed text: a separator comes first when the
      text already holds a positive multiple of `size` characters. */
  lemma {:induction false} GroupedRevSnoc(x: seq<char>, d: char, rsep: seq<char>, size: nat)
    requires size > 0
    ensures GroupedRev(x + [d], rsep, size)
      == GroupedRev(x, rsep, size) + (if |x| % size == 0 && |x| > 0 then rsep else []) + [d]
    decreases |x|
  {
    var n := |x|;
    if n < size {
      ModSmall(n, size);
    } else if n == size {
      assert (x + [d])[..size] == x;
      assert (x + [d])[size..] == [d];
      ModShift(0, 1, size);
    } else {
      var rest := x[size..];
      assert (x + [d])[..size] == x[..size];
      assert (x + [d])[size..] == rest + [d];
      GroupedRevSnoc(rest, d, rsep, size);
      ModShift(n - size, 1, size);
      assert |rest| % size == n % size;
      var tailGroups := GroupedRev(rest, rsep, size);
      assert GroupedRev(x, rsep, size) == x[..size] + rsep + tailGroups;
      assert GroupedRev(x + [d], rsep, size) == x[..size] + rsep + GroupedRev(rest + [d], rsep, size);
    }
  }

  /** One step of the reversed grouping loops: the text built from the first `count`
      characters of r, extended by the next one (and a separator after a full group
      that is not the last), is the text built from the first count + 1. */
  lemma GroupStep(r: seq<char>, count: nat, s: seq<char>, sep: seq<char>, size: nat)
    requires size > 0 && count < |r|
    requires s == GroupedRev(r[..count], sep, size) + (if count % size == 0 && 0 < count then sep else [])
    ensures var next := count + 1;
      s + [r[count]] + (if next % size == 0 && next < |r| then sep else [])
      == GroupedRev(r[..next], sep, size) + (if next % size == 0 && 0 < next < |r| then sep else [])
  {
    GroupedRevSnoc(r[..count], r[count], sep, size);
    assert r[..count + 1] == r[..count] + [r[count]];
  }

  /** Grouping adds one separator per full group after the first. */
  lemma {:induction false} GroupedLength(ds: seq<char>, sep: seq<char>, size: nat)
    requires size > 0 && ds != []
    ensures |Grouped(ds, sep, size)| == |ds| + ((|ds| - 1) / size) * |sep|
    decreases |ds|
  {
    var n := |ds|;
    if n <= size {
      DivUnique(n - 1, size, 0, n - 1);
    } else {
      GroupedLength(ds[..n - size], sep, size);
      var q := (n - size - 1) / size;
      DivMod(n - size - 1, size);
      DivUnique(n - 1, size, q + 1, (n - size - 1) % size);
      assert (q + 1) * |sep| == q * |sep| + |sep|;
    }
  }

  // ---------------------------------------------------------------------------
  // Decimal
  // ---------------------------------------------------------------------------

  /** UString::Decimal(value, min_width, right_justified, separator, force_sign, pad)
      on a value of the integral type t. The magnitude is taken on unbounded
      integers (see DecimalAsWritten for the type's own negation). */
  method Decimal(t: IntType, value: int, minWidth: nat, rightJustified: bool, separator: seq<char>,
                 forceSign: bool, pad: char) returns (s: seq<char>)
    requires t.Valid() && t.Contains(value)
    ensures s == DecimalSpec(value, minWidth, rightJustified, separator, forceSign, pad)
  {
    // The result is built in reverse order, so the separator is reversed too.
    s := [];
    var sep := Reverse(separator);
    var negative := value != 0 && value < 1;
    var ivalue: nat := if negative then -value else value;
    ghost var magnitude := ivalue;
    ghost var r := RevDecimal(ivalue);
    if ivalue == 0 {
      s := s + ['0'];
    } else {
      var count := 0;
      while ivalue != 0
        invariant count <= |r|
        invariant ivalue == 0 <==> count == |r|
        invariant ivalue != 0 ==> r[count..] == RevDecimal(ivalue)
        invariant s == GroupedRev(r[..count], sep, 3) + (if count % 3 == 0 && 0 < count < |r| then sep else [])
        decreases ivalue
      {
        assert r[count] == DigitChar(ivalue % 10);
        GroupStep(r, count, s, sep, 3);
        if ivalue >= 10 {
          assert r[count + 1..] == r[count..][1..];
        }
        s := s + [DigitChar(ivalue % 10)];
        ivalue := ivalue / 10;
        count := count + 1;
        if count % 3 == 0 && ivalue != 0 {
          s := s + sep;
        }
      }
      assert r[..count] == r;
    }
    assert s == GroupedRev(r, sep, 3);
    ghost var digits := s;
    if negative {
      s := s + ['-'];
    } else if forceSign {
      s := s + ['+'];
    }
    assert s == digits + SignText(value, forceSign);
    DecimalReversed(value, magnitude, digits, s, separator, forceSign);
    s := Reverse(s);
    // Adjust the width.
    if |s| < minWidth {
      if rightJustified {
        s := Repeat(pad, minWidth - |s|) + s;
      } else {
        s := s + Repeat(pad, minWidth - |s|);
      }
    }
  }

  /** The reversed text Decimal has built, once reversed, is the sign and the grouped digits. */
  lemma DecimalReversed(value: int, magnitude: nat, digits: seq<char>, s: seq<char>,
                        separator: seq<char>, forceSign: bool)
    requires magnitude == if value < 0 then -value else value
    requires digits == GroupedRev(RevDecimal(magnitude), Reverse(separator), 3)
    requires s == digits + SignText(value, forceSign)
    ensures Reverse(s) == SignText(value, forceSign) + Grouped(DecimalDigits(magnitude), separator, 3)
  {
    var sign := SignText(value, forceSign);
    ReverseShort(sign);
    ReverseConcat(digits, sign);
    RevDecimalReverse(magnitude);
    GroupedRevReverse(DecimalDigits(magnitude), separator, 3);
    ReverseReverse(RevDecimal(magnitude));
  }

  // ---------------------------------------------------------------------------
  // Decimal as written: the magnitude in the type itself
  // ---------------------------------------------------------------------------

  /** C++ `/` on integers: the quotient truncated toward zero. */
  function TruncDiv(a: int, b: nat): int
    requires b > 0
  {
    if a >= 0 then a / b else -((-a) / b)
  }

  /** C++ `%` on integers: the remainder has the sign of the dividend. */
  function TruncMod(a: int, b: nat): (r: int)
    requires b > 0
    ensures -(b as int) < r < b
    ensures a >= 0 ==> r == a % b
  {
    if a >= 0 then a % b else -((-a) % b)
  }

  /** C++ division: the quotient times the divisor plus the remainder gives the
      dividend back, the remainder has the sign of the dividend and is smaller
      than the divisor, and the quotient is the magnitude's quotient with the
      dividend's sign. */
  lemma TruncDivMod(a: int, b: nat)
    requires b > 0
    ensures a == b * TruncDiv(a, b) + TruncMod(a, b)
    ensures a >= 0 ==> 0 <= TruncMod(a, b) < b && TruncDiv(a, b) >= 0
    ensures a < 0 ==> -(b as int) < TruncMod(a, b) <= 0 && TruncDiv(a, b) <= 0
    ensures (if a < 0 then -TruncDiv(a, b) else TruncDiv(a, b)) == (if a < 0 then -a else a) / b
  {
    var n := if a < 0 then -a else a;
    var q, r := n / b, n % b;
    DivMod(n, b);
    QuotientNonNegative(n, b);
    if a < 0 {
      assert a == b * -q + -r;
    }
  }

  /** The quotient of a natural number is natural. */
  lemma QuotientNonNegative(n: nat, b: nat)
    requires b > 0
    ensures n / b >= 0
  {
    DivMod(n, b);
  }

  /** The digits the loop of Decimal pushes for a non-zero ivalue, lowest first:
      u'0' + UChar(ivalue % 10), with C++ truncating `%` and `/`. A negative
      remainder -d gives the character d places below '0'. */
  function RevDigitsAsWritten(iv: int): seq<char>
    decreases if iv < 0 then -iv else iv
  {
    if iv == 0 then []
    else [('0' as int + TruncMod(iv, 10)) as char] + RevDigitsAsWritten(TruncDiv(iv, 10))
  }

  /** Decimal exactly as the template computes it: ivalue = -value is evaluated in
      the type INT itself, so for the most negative value of a signed type it wraps
      back to that value and the digit loop sees a negative number. */
  function DecimalAsWritten(t: IntType, value: int, minWidth: nat, rightJustified: bool,
                            separator: seq<char>, forceSign: bool, pad: char): seq<char>
    requires t.Valid() && t.Contains(value)
  {
    var negative := value != 0 && value < 1;
    var ivalue := if negative then t.Wrap(-value) else value;
    var digits := if ivalue == 0 then "0" else GroupedRev(RevDigitsAsWritten(ivalue), Reverse(separator), 3);
    Justify(Reverse(digits + SignText(value, forceSign)), minWidth, rightJustified, pad)
  }

  /** For a positive n the as-written digit loop pushes the decimal digits of n. */
  lemma {:induction false} RevDigitsPositive(n: nat)
    requires n > 0
    ensures RevDigitsAsWritten(n) == RevDecimal(n)
    decreases n
  {
    if n >= 10 {
      RevDigitsPositive(n / 10);
    }
  }

  /** Except at the most negative value of a signed type, Decimal as written gives the
      reference result. */
  lemma DecimalAsWrittenAgrees(t: IntType, value: int, minWidth: nat, rightJustified: bool,
                               separator: seq<char>, forceSign: bool, pad: char)
    requires t.Valid() && t.Contains(value) && value != t.Min()
    ensures DecimalAsWritten(t, value, minWidth, rightJustified, separator, forceSign, pad)
      == DecimalSpec(value, minWidth, rightJustified, separator, forceSign, pad)
  {
    var magnitude: nat := if value < 0 then -value else value;
    assert t.Contains(magnitude);
    var digits := GroupedRev(RevDecimal(magnitude), Reverse(separator), 3);
    if magnitude == 0 {
      assert digits == "0";
    } else {
      RevDigitsPositive(magnitude);
    }
    DecimalReversed(value, magnitude, digits, digits + SignText(value, forceSign), separator, forceSign);
  }

  /** The most negative value of a signed type is its own negation in the type, and
      its truncated remainder by 10 is negative. */
  lemma MinimumNegation(t: IntType)
    requires t.Valid() && t.signed
    ensures t.Min() < 0 && t.Wrap(-t.Min()) == t.Min() && TruncMod(t.Min(), 10) < 0
  {
    var m := t.Min();
    assert m % 2 == 0 && m < 0;
    assert t.Wrap(-m) == m;
  }

  /** At the most negative value of a signed type, the first digit Decimal as written
      pushes (the last character of its text) lies below '0': not a digit at all. */
  lemma DecimalAsWrittenMinimum(t: IntType, separator: seq<char>, forceSign: bool)
    requires t.Valid() && t.signed
    ensures var s := DecimalAsWritten(t, t.Min(), 0, true, separator, forceSign, ' ');
      s != [] && s[|s| - 1] < '0'
  {
    MinimumNegation(t);
    var m := t.Min();
    var r := RevDigitsAsWritten(m);
    var digits := GroupedRev(r, Reverse(separator), 3);
    assert digits[0] == r[0];
    var text := digits + SignText(m, forceSign);
    assert Reverse(text)[|text| - 1] == text[0];
  }

  /** The smallest case: Int8 -128 is written "-/.(" instead of "-128". */
  lemma DecimalAsWrittenInt8()
    ensures DecimalAsWritten(Int8, -128, 0, true, [], false, ' ') == ['-', '/', '.', '(']
    ensures DecimalSpec(-128, 0, true, [], false, ' ') == ['-', '1', '2', '8']
  {
    assert Int8.Wrap(128) == -128;
    var r := RevDigitsAsWritten(-128);
    assert r == ['(', '.', '/'] by {
      assert TruncMod(-128, 10) == -8 && TruncDiv(-128, 10) == -12;
      assert TruncMod(-12, 10) == -2 && TruncDiv(-12, 10) == -1;
      assert TruncMod(-1, 10) == -1 && TruncDiv(-1, 10) == 0;
      assert RevDigitsAsWritten(-1) == ['/'];
      assert RevDigitsAsWritten(-12) == ['.', '/'];
    }
    assert GroupedRev(r, Reverse([]), 3) == r;
    ReverseFour('(', '.', '/', '-');
    var d := DecimalDigits(128);
    assert d == ['1', '2', '8'] by {
      assert DecimalDigits(1) == ['1'];
      assert DecimalDigits(12) == ['1', '2'];
    }
    assert Grouped(d, [], 3) == d;
  }

  lemma ReverseFour(a: char, b: char, c: char, d: char)
    ensures Reverse([a, b, c, d]) == [d, c, b, a]
  {
    assert [a, b, c, d][1..] == [b, c, d];
    assert [b, c, d][1..] == [c, d];
    assert Reverse([c, d]) == [d, c];
  }

  // ---------------------------------------------------------------------------
  // Hexa
  // ---------------------------------------------------------------------------

  /** UString::Hexa(value, width, separator, use_prefix, use_upper) on a value of the
      integral type t. `value & 0xF` is the Euclidean remainder modulo 16 of the
      two's-complement value and `value >>= 4` its floor division by 16. */
  method Hexa(t: IntType, value: int, width: nat, separator: seq<char>, usePrefix: bool, useUpper: bool)
    returns (s: seq<char>)
    requires t.Valid() && t.Contains(value)
    ensures s == HexaSpec(t, value, width, separator, usePrefix, useUpper)
  {
    // Default to the natural size of the type.
    var w: nat := if width == 0 then 2 * t.Size() else width;
    s := ReversedNibbles(value, w, Reverse(separator), useUpper);
    ghost var digits := s;
    // Add the optional prefix, still in reverse order.
    if usePrefix {
      s := s + ['x'];
      s := s + ['0'];
    }
    HexaReversed(value, w, useUpper, digits, s, separator, usePrefix);
    s := Reverse(s);
  }

  /** The digit loop of Hexa: the w lowest nibbles of value, lowest first, with the
      reversed separator sep after every group of four that is not the last. */
  method ReversedNibbles(value: int, width: nat, sep: seq<char>, useUpper: bool) returns (s: seq<char>)
    ensures s == GroupedRev(RevNibbles(value, width, useUpper), sep, 4)
  {
    s := [];
    ghost var r := RevNibbles(value, width, useUpper);
    var v := value;
    var w: nat := width;
    var count: nat := 0;
    while w != 0
      invariant count + w == width
      invariant |r| == width
      invariant r[count..] == RevNibbles(v, w, useUpper)
      invariant s == GroupedRev(r[..count], sep, 4) + (if count % 4 == 0 && 0 < count < |r| then sep else [])
    {
      var nibble := v % 16;
      assert r[count] == HexChar(nibble, useUpper);
      GroupStep(r, count, s, sep, 4);
      assert r[count + 1..] == r[count..][1..];
      v := v / 16;
      w := w - 1;
      // HexChar is the three-way choice of '0' + n, 'A' + n - 10 or 'a' + n - 10.
      s := s + [HexChar(nibble, useUpper)];
      count := count + 1;
      if count % 4 == 0 && w > 0 {
        s := s + sep;
      }
    }
    assert r[..count] == r;
  }

  lemma HexaReversed(value: int, w: nat, useUpper: bool, digits: seq<char>, s: seq<char>,
                     separator: seq<char>, usePrefix: bool)
    requires digits == GroupedRev(RevNibbles(value, w, useUpper), Reverse(separator), 4)
    requires s == digits + (if usePrefix then ['x', '0'] else [])
    ensures Reverse(s) == (if usePrefix then "0x" else "") + Grouped(Nibbles(value, w, useUpper), separator, 4)
  {
    var prefix: seq<char> := if usePrefix then ['x', '0'] else [];
    ReversePair('x', '0');
    ReverseConcat(digits, prefix);
    RevNibblesReverse(value, w, useUpper);
    GroupedRevReverse(Nibbles(value, w, useUpper), separator, 4);
    ReverseReverse(RevNibbles(value, w, useUpper));
  }

  lemma ReverseShort(s: seq<char>)
    requires |s| <= 1
    ensures Reverse(s) == s
  {
  }

  lemma ReversePair(a: char, b: char)
    ensures Reverse([a, b]) == [b, a]
  {
  }
}
