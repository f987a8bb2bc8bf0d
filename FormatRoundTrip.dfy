/** Formatting then parsing: the text of Decimal and Hexa read back by toInteger.

    Decimal writes digits that toInteger reads in base 10, Hexa with its "0x"
    prefix digits that it reads in base 16, as long as the group separator is
    made of thousands separators toInteger skips. These lemmas tie the two
    halves of tsUStringTemplate.h together. */
module FormatRoundTrip {
  import opened IntTypes
  import opened UChars
  import opened Optional
  import opened UStringInteger
  import opened UStringFormat

  /** No character of x is a digit of the base. */
  predicate NoDigit(x: seq<char>, base: nat)
  {
    forall k :: 0 <= k < |x| ==> ToDigit(x[k], base) < 0
  }

  /** Every character of x is a digit of the base. */
  predicate AllDigits(x: seq<char>, base: nat)
  {
    forall k :: 0 <= k < |x| ==> ToDigit(x[k], base) >= 0
  }

  /** Every character of x may appear in the digit part of toInteger. */
  predicate AllAccepted(x: seq<char>, base: nat, seps: seq<char>)
  {
    forall k :: 0 <= k < |x| ==> Accepted(x[k], base, seps)
  }

  /** A group separator that toInteger skips: thousands separators, none a digit. */
  predicate SkippedSeparator(sep: seq<char>, base: nat, seps: seq<char>)
  {
    forall k :: 0 <= k < |sep| ==> sep[k] in seps && ToDigit(sep[k], base) < 0
  }

  // ---------------------------------------------------------------------------
  // Horner over grouped digits
  // ---------------------------------------------------------------------------

  /** Characters that are not digits add nothing to the value. */
  lemma {:induction false} HornerAppendNoDigit(a: seq<char>, x: seq<char>, base: nat)
    requires NoDigit(x, base)
    ensures Horner(a + x, base) == Horner(a, base)
    decreases |x|
  {
    if x == [] {
      assert a + x == a;
    } else {
      var y := x[..|x| - 1];
      assert (a + x)[..|a + x| - 1] == a + y;
      assert (a + x)[|a + x| - 1] == x[|x| - 1];
      HornerAppendNoDigit(a, y, base);
    }
  }

  /** The value of a + y depends on a only through the value of a. */
  lemma {:induction false} HornerCongruent(a: seq<char>, b: seq<char>, y: seq<char>, base: nat)
    requires Horner(a, base) == Horner(b, base)
    ensures Horner(a + y, base) == Horner(b + y, base)
    decreases |y|
  {
    if y == [] {
      assert a + y == a;
      assert b + y == b;
    } else {
      var z := y[..|y| - 1];
      assert (a + y)[..|a + y| - 1] == a + z;
      assert (b + y)[..|b + y| - 1] == b + z;
      assert (a + y)[|a + y| - 1] == y[|y| - 1];
      assert (b + y)[|b + y| - 1] == y[|y| - 1];
      HornerCongruent(a, b, z, base);
    }
  }

  /** Separators without digits between the groups leave the value unchanged. */
  lemma {:induction false} HornerGrouped(ds: seq<char>, sep: seq<char>, size: nat, base: nat)
    requires size > 0 && NoDigit(sep, base)
    ensures Horner(Grouped(ds, sep, size), base) == Horner(ds, base)
    decreases |ds|
  {
    if |ds| > size {
      var front, back := ds[..|ds| - size], ds[|ds| - size..];
      var gf := Grouped(front, sep, size);
      HornerGrouped(front, sep, size, base);
      HornerAppendNoDigit(gf, sep, base);
      HornerCongruent(gf + sep, front, back, base);
      assert front + back == ds;
    }
  }

  /** Grouping keeps the first and the last character. */
  lemma {:induction false} GroupedEnds(ds: seq<char>, sep: seq<char>, size: nat)
    requires size > 0 && ds != []
    ensures var g := Grouped(ds, sep, size);
      g != [] && g[0] == ds[0] && g[|g| - 1] == ds[|ds| - 1]
    decreases |ds|
  {
    if |ds| > size {
      GroupedEnds(ds[..|ds| - size], sep, size);
    }
  }

  /** Grouped digits with skipped separators are all accepted by toInteger. */
  lemma {:induction false} GroupedAccepted(ds: seq<char>, sep: seq<char>, size: nat, base: nat, seps: seq<char>)
    requires size > 0 && AllDigits(ds, base) && SkippedSeparator(sep, base, seps)
    ensures AllAccepted(Grouped(ds, sep, size), base, seps)
    decreases |ds|
  {
    if |ds| > size {
      var front, back := ds[..|ds| - size], ds[|ds| - size..];
      var gf := Grouped(front, sep, size);
      assert AllDigits(front, base) by {
        forall k | 0 <= k < |front| ensures ToDigit(front[k], base) >= 0 {
          assert front[k] == ds[k];
        }
      }
      GroupedAccepted(front, sep, size, base, seps);
      var g := Grouped(ds, sep, size);
      assert g == gf + sep + back;
      forall k | 0 <= k < |g| ensures Accepted(g[k], base, seps) {
        if k < |gf| {
          assert g[k] == gf[k];
        } else if k < |gf| + |sep| {
          assert g[k] == sep[k - |gf|];
        } else {
          assert g[k] == ds[|ds| - size + (k - |gf| - |sep|)];
        }
      }
    }
  }

  // ---------------------------------------------------------------------------
  // Decimal
  // ---------------------------------------------------------------------------

  lemma DigitCharValue(d: nat)
    requires d < 10
    ensures ToDigit(DigitChar(d), 10) == d
    ensures '0' <= DigitChar(d) <= '9'
  {
  }

  /** The decimal digits of n denote n. */
  lemma {:induction false} HornerDecimal(n: nat)
    ensures Horner(DecimalDigits(n), 10) == n
    ensures AllDigits(DecimalDigits(n), 10)
    ensures forall k :: 0 <= k < |DecimalDigits(n)| ==> '0' <= DecimalDigits(n)[k] <= '9'
  {
    var d := DecimalDigits(n);
    if n < 10 {
      DigitCharValue(n);
      assert d[..0] == [];
    } else {
      HornerDecimal(n / 10);
      DigitCharValue(n % 10);
      assert d[..|d| - 1] == DecimalDigits(n / 10);
    }
  }

  /** Only the number 0 is written with a leading '0'. */
  lemma {:induction false} DecimalLeading(n: nat)
    requires n > 0
    ensures DecimalDigits(n)[0] != '0'
  {
    if n >= 10 {
      DecimalLeading(n / 10);
    }
  }

  lemma {:induction false} TrimLeadingPad(x: seq<char>, c: char, n: nat)
    requires IsSpace(c) && x != [] && !IsSpace(x[0])
    ensures TrimLeading(Repeat(c, n) + x) == x
  {
    if n > 0 {
      assert (Repeat(c, n) + x)[1..] == Repeat(c, n - 1) + x;
      TrimLeadingPad(x, c, n - 1);
    } else {
      assert Repeat(c, n) + x == x;
    }
  }

  lemma {:induction false} TrimTrailingPad(x: seq<char>, c: char, n: nat)
    requires IsSpace(c) && x != [] && !IsSpace(x[|x| - 1])
    ensures TrimTrailing(x + Repeat(c, n)) == x
  {
    if n > 0 {
      var y := x + Repeat(c, n);
      assert y[..|y| - 1] == x + Repeat(c, n - 1);
      TrimTrailingPad(x, c, n - 1);
    } else {
      assert x + Repeat(c, n) == x;
    }
  }

  /** Padding with white space is removed again by the trimming of toInteger. */
  lemma TrimJustify(x: seq<char>, minWidth: nat, rightJustified: bool, pad: char)
    requires x != [] && !IsSpace(x[0]) && !IsSpace(x[|x| - 1])
    requires |x| >= minWidth || IsSpace(pad)
    ensures Trim(Justify(x, minWidth, rightJustified, pad), true, true) == x
  {
    TrimNoSpace(x);
    if |x| < minWidth {
      var n := minWidth - |x|;
      if rightJustified {
        TrimLeadingPad(x, pad, n);
        TrailingNoSpace(x);
      } else {
        var y := x + Repeat(pad, n);
        assert y[0] == x[0];
        TrimTrailingPad(x, pad, n);
      }
    }
  }

  /** toInteger on a string whose literal has only accepted characters: success,
      with the value of its digits brought into the type and negated if signed. */
  lemma ToIntegerOfLiteral(s: seq<char>, t: IntType, seps: seq<char>, lit: Literal)
    requires t.Valid()
    requires Lex(s, t.signed) == Some(lit)
    requires AllAccepted(lit.digits, lit.base, seps)
    ensures var acc := t.Wrap(Horner(lit.digits, lit.base));
      ToIntegerSpec(s, t, seps) == (true, if lit.negative then t.Wrap(-acc) else acc)
  {
    ValidLenIs(lit.digits, lit.base, seps, |lit.digits|);
    assert lit.digits[..|lit.digits|] == lit.digits;
  }

  /** The sign, base and digits of an optional sign followed by decimal digits, the
      first of which is '0' only when it is alone. */
  lemma LexDecimal(sign: seq<char>, g: seq<char>, signed: bool)
    requires sign == [] || sign == ['-'] || sign == ['+']
    requires g != [] && '0' <= g[0] <= '9' && (g[0] == '0' ==> |g| == 1)
    requires sign == ['-'] ==> signed
    ensures LexBody(sign + g, signed) == Some(Literal(sign == ['-'], 10, g))
  {
    var x := sign + g;
    assert x[0] == if sign == [] then g[0] else sign[0];
    assert SignLen(x) == |sign|;
    assert x[SignLen(x)..] == g;
  }

  /** The grouped digits of m start with a digit that is '0' only when alone, and
      end with a digit. */
  lemma GroupedDecimalShape(m: nat, separator: seq<char>)
    ensures var g := Grouped(DecimalDigits(m), separator, 3);
      g != [] && '0' <= g[0] <= '9' && (g[0] == '0' ==> |g| == 1) && '0' <= g[|g| - 1] <= '9'
  {
    var ds := DecimalDigits(m);
    var g := Grouped(ds, separator, 3);
    HornerDecimal(m);
    GroupedEnds(ds, separator, 3);
    if m > 0 {
      DecimalLeading(m);
      if |g| == 1 {
        assert |ds| == 1;
      }
    } else {
      assert ds == ['0'];
    }
  }

  /** Decimal pads its text with white space, if it pads it at all. */
  predicate PaddingIsSpace(value: int, minWidth: nat, separator: seq<char>, forceSign: bool, pad: char)
  {
    var m: nat := if value < 0 then -value else value;
    |SignText(value, forceSign) + Grouped(DecimalDigits(m), separator, 3)| >= minWidth || IsSpace(pad)
  }

  /** The trimming of toInteger removes exactly the padding of Decimal. */
  lemma DecimalTrim(value: int, minWidth: nat, rightJustified: bool, separator: seq<char>,
                    forceSign: bool, pad: char)
    requires PaddingIsSpace(value, minWidth, separator, forceSign, pad)
    ensures var m: nat := if value < 0 then -value else value;
      Trim(DecimalSpec(value, minWidth, rightJustified, separator, forceSign, pad), true, true)
      == SignText(value, forceSign) + Grouped(DecimalDigits(m), separator, 3)
  {
    var m: nat := if value < 0 then -value else value;
    var g := Grouped(DecimalDigits(m), separator, 3);
    var sign := SignText(value, forceSign);
    var x := sign + g;
    GroupedDecimalShape(m, separator);
    assert x[|x| - 1] == g[|g| - 1];
    assert x[0] == if sign == [] then g[0] else sign[0];
    TrimJustify(x, minWidth, rightJustified, pad);
  }

  /** The literal toInteger finds in the text of Decimal. */
  lemma DecimalLex(t: IntType, value: int, minWidth: nat, rightJustified: bool, separator: seq<char>,
                   forceSign: bool, pad: char)
    requires t.Valid() && t.Contains(value)
    requires PaddingIsSpace(value, minWidth, separator, forceSign, pad)
    ensures var m: nat := if value < 0 then -value else value;
      Lex(DecimalSpec(value, minWidth, rightJustified, separator, forceSign, pad), t.signed)
      == Some(Literal(value < 0, 10, Grouped(DecimalDigits(m), separator, 3)))
  {
    var m: nat := if value < 0 then -value else value;
    DecimalTrim(value, minWidth, rightJustified, separator, forceSign, pad);
    GroupedDecimalShape(m, separator);
    assert value < 0 ==> t.signed;
    LexDecimal(SignText(value, forceSign), Grouped(DecimalDigits(m), separator, 3), t.signed);
  }

  /** toInteger reads back what Decimal writes: the value itself, with any sign,
      white-space padding and group separator made of skipped thousands separators. */
  lemma DecimalRoundTrip(t: IntType, value: int, minWidth: nat, rightJustified: bool, separator: seq<char>,
                         forceSign: bool, pad: char, seps: seq<char>)
    requires t.Valid() && t.Contains(value)
    requires PaddingIsSpace(value, minWidth, separator, forceSign, pad)
    requires SkippedSeparator(separator, 10, seps)
    ensures ToIntegerSpec(DecimalSpec(value, minWidth, rightJustified, separator, forceSign, pad), t, seps)
      == (true, value)
    ensures Lex(DecimalSpec(value, minWidth, rightJustified, separator, forceSign, pad), t.signed).Some?
      && SignedValue(Lex(DecimalSpec(value, minWidth, rightJustified, separator, forceSign, pad), t.signed).value)
         == value
  {
    var m: nat := if value < 0 then -value else value;
    var ds := DecimalDigits(m);
    var g := Grouped(ds, separator, 3);
    assert NoDigit(separator, 10);
    DecimalLex(t, value, minWidth, rightJustified, separator, forceSign, pad);
    HornerDecimal(m);
    GroupedAccepted(ds, separator, 3, 10, seps);
    HornerGrouped(ds, separator, 3, 10);
    ReadBack(DecimalSpec(value, minWidth, rightJustified, separator, forceSign, pad), t, seps,
      Literal(value < 0, 10, g), m, value);
  }

  /** The value toInteger reads from a literal of accepted characters whose digits
      denote the magnitude of a value of the type. */
  lemma ReadBack(s: seq<char>, t: IntType, seps: seq<char>, lit: Literal, m: nat, value: int)
    requires t.Valid() && t.Contains(value)
    requires Lex(s, t.signed) == Some(lit)
    requires AllAccepted(lit.digits, lit.base, seps)
    requires Horner(lit.digits, lit.base) == m
    requires m == (if value < 0 then -value else value) && lit.negative == (value < 0)
    ensures ToIntegerSpec(s, t, seps) == (true, value)
  {
    ToIntegerOfLiteral(s, t, seps, lit);
    var acc := t.Wrap(m);
    if value < 0 {
      WrapNeg(t, m);
      assert value == -(m as int);
      assert t.Wrap(-acc) == t.Wrap(value) == value;
    } else {
      assert m == value;
      assert acc == value;
    }
  }

  // ---------------------------------------------------------------------------
  // Hexa
  // ---------------------------------------------------------------------------

  lemma HexCharValue(n: nat, upper: bool)
    requires n < 16
    ensures ToDigit(HexChar(n, upper), 16) == n
    ensures !IsSpace(HexChar(n, upper))
  {
  }

  /** Peeling the lowest hexadecimal digit off v modulo 16 * p. */
  lemma ModNested(v: int, p: nat)
    requires p > 0
    ensures ((v / 16) % p) * 16 + v % 16 == v % (16 * p)
  {
    var q, r := v / 16, v % 16;
    DivMod(v, 16);
    var a, b := q / p, q % p;
    DivMod(q, p);
    assert v == (16 * p) * a + (16 * b + r) by {
      assert v == 16 * q + r;
      assert q == a * p + b;
      assert 16 * q == (16 * p) * a + 16 * b;
    }
    assert 0 <= 16 * b + r < 16 * p by {
      assert b <= p - 1;
      assert 16 * b <= 16 * p - 16;
    }
    DivUnique(v, 16 * p, a, 16 * b + r);
  }

  /** The w hexadecimal digits of v denote v modulo 16^w. */
  lemma {:induction false} HornerNibbles(v: int, w: nat, upper: bool)
    ensures Horner(Nibbles(v, w, upper), 16) == v % Pow(16, w)
    ensures AllDigits(Nibbles(v, w, upper), 16)
    decreases w
  {
    var d := Nibbles(v, w, upper);
    if w > 0 {
      HornerNibbles(v / 16, w - 1, upper);
      HexCharValue(v % 16, upper);
      assert d[..|d| - 1] == Nibbles(v / 16, w - 1, upper);
      ModNested(v, Pow(16, w - 1));
    }
  }

  /** The literal toInteger finds in the text of Hexa with its prefix. */
  lemma HexaLex(t: IntType, value: int, width: nat, separator: seq<char>, useUpper: bool)
    requires t.Valid()
    ensures var w := if width == 0 then 2 * t.Size() else width;
      Lex(HexaSpec(t, value, width, separator, true, useUpper), t.signed)
      == Some(Literal(false, 16, Grouped(Nibbles(value, w, useUpper), separator, 4)))
  {
    var w := if width == 0 then 2 * t.Size() else width;
    var ds := Nibbles(value, w, useUpper);
    var g := Grouped(ds, separator, 4);
    var x := "0x" + g;
    GroupedEnds(ds, separator, 4);
    assert ds[w - 1] == HexChar(value % 16, useUpper);
    HexCharValue(value % 16, useUpper);
    assert x[|x| - 1] == ds[|ds| - 1];
    TrimNoSpace(x);
    assert SignLen(x) == 0;
    assert x[0..] == x;
    assert x[2..] == g;
  }

  /** toInteger reads back what Hexa writes with its "0x" prefix: the value modulo
      16^width, brought into the type. */
  lemma HexaRoundTrip(t: IntType, value: int, width: nat, separator: seq<char>, useUpper: bool, seps: seq<char>)
    requires t.Valid() && t.Contains(value)
    requires SkippedSeparator(separator, 16, seps)
    ensures var w := if width == 0 then 2 * t.Size() else width;
      ToIntegerSpec(HexaSpec(t, value, width, separator, true, useUpper), t, seps)
      == (true, t.Wrap(value % Pow(16, w)))
  {
    var w := if width == 0 then 2 * t.Size() else width;
    var ds := Nibbles(value, w, useUpper);
    var g := Grouped(ds, separator, 4);
    HexaLex(t, value, width, separator, useUpper);
    HornerNibbles(value, w, useUpper);
    GroupedAccepted(ds, separator, 4, 16, seps);
    assert NoDigit(separator, 16);
    HornerGrouped(ds, separator, 4, 16);
    ToIntegerOfLiteral(HexaSpec(t, value, width, separator, true, useUpper), t, seps, Literal(false, 16, g));
  }

  /** With the default width, toInteger reads back exactly the value Hexa wrote. */
  lemma HexaRoundTripDefault(t: IntType, value: int, separator: seq<char>, useUpper: bool, seps: seq<char>)
    requires t.Valid() && t.Contains(value)
    requires SkippedSeparator(separator, 16, seps)
    ensures ToIntegerSpec(HexaSpec(t, value, 0, separator, true, useUpper), t, seps) == (true, value)
  {
    HexaRoundTrip(t, value, 0, separator, useUpper, seps);
    NibblesModulus(t);
    WrapModulus(t, value);
  }
}
