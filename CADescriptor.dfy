/** The CA_descriptor (ts::CADescriptor, tsCADescriptor.h).

    The conditional-access descriptor of section 2.6.16 of ISO/IEC 13818-1
    (ITU-T Rec. H.222.0), tag 0x09. Its payload is
      bytes 0-1 : CA_system_id, 16 bits, big-endian
      bytes 2-3 : 3 reserved bits (set to 1) then CA_PID, 13 bits, big-endian
      bytes 4.. : private data.
    The payload of a descriptor holds at most 255 bytes, so at most 251 bytes
    of private data fit. */
module CADescriptor {
  import opened Optional
  import opened IntTypes
  import opened UChars
  import opened UStringSplit
  import opened UStringInteger
  import opened UStringFormat
  import opened FormatRoundTrip

  newtype byte = x: int | 0 <= x < 0x100
  newtype uint16 = x: int | 0 <= x < 0x1_0000

  /** A PID is stored in 16 bits; only the low 13 bits are meaningful. */
  type PID = uint16

  const CA_DESCRIPTOR_TAG: byte := 0x09
  /** The null PID, all 13 bits set. */
  const PID_NULL: PID := 0x1FFF
  /** One more than the largest PID. */
  const PID_MAX: nat := 0x2000
  /** The largest payload a descriptor can hold (its length field is one byte). */
  const MAX_DESCRIPTOR_SIZE: nat := 255
  /** Bytes of the payload before the private data. */
  const FIXED_SIZE: nat := 4

  /** A binary descriptor: its tag and its payload. The type does not bound the
      payload: the descriptors this model builds (Serialize, AddFromCommandLine)
      are proved to hold at most MAX_DESCRIPTOR_SIZE bytes, and decoding reads only
      the fixed part and takes the rest as private data, whatever its length. */
  datatype Descriptor = Descriptor(tag: byte, payload: seq<byte>)

  /** The three public fields of a CA_descriptor. */
  datatype CAFields = CAFields(casId: uint16, caPid: PID, privateData: seq<byte>)

  /** The payload of the descriptor: CA_system_id, then the reserved bits and the
      low 13 bits of CA_PID, each big-endian, then the private data. */
  function EncodePayload(f: CAFields): (p: seq<byte>)
    ensures |p| == FIXED_SIZE + |f.privateData|
    ensures p[FIXED_SIZE..] == f.privateData
    ensures (p[0] as int) * 256 + (p[1] as int) == f.casId as int
    ensures (p[2] as int) / 32 == 7
    ensures ((p[2] as int) % 32) * 256 + (p[3] as int) == (f.caPid as int) % PID_MAX
  {
    var casId := f.casId as int;
    var pid := (f.caPid as int) % PID_MAX;
    [(casId / 256) as byte, (casId % 256) as byte, (0xE0 + pid / 256) as byte, (pid % 256) as byte]
      + f.privateData
  }

  /** The fields a payload holds, or None when it is shorter than the fixed part.
      The reserved bits are masked away, whatever their value. */
  function DecodePayload(p: seq<byte>): (r: Option<CAFields>)
    ensures r.Some? <==> |p| >= FIXED_SIZE
    ensures r.Some? ==> (r.value.caPid as int) < PID_MAX && r.value.privateData == p[FIXED_SIZE..]
  {
    if |p| < FIXED_SIZE then None
    else
      Some(CAFields(((p[0] as int) * 256 + (p[1] as int)) as uint16,
                    (((p[2] as int) % 32) * 256 + (p[3] as int)) as PID,
                    p[FIXED_SIZE..]))
  }

  /** Decoding an encoded payload gives back the fields exactly, for a PID that
      fits in 13 bits. */
  lemma DecodeEncode(f: CAFields)
    requires (f.caPid as int) < PID_MAX
    ensures DecodePayload(EncodePayload(f)) == Some(f)
  {
  }

  /** Encoding the fields decoded from a payload gives the payload back with the
      reserved bits forced to 1 and nothing else changed. */
  lemma EncodeDecode(p: seq<byte>)
    requires |p| >= FIXED_SIZE
    ensures EncodePayload(DecodePayload(p).value)
      == p[..2] + [(0xE0 + (p[2] as int) % 32) as byte] + p[3..]
  {
    var q := EncodePayload(DecodePayload(p).value);
    var r := p[..2] + [(0xE0 + (p[2] as int) % 32) as byte] + p[3..];
    assert |q| == |r|;
    forall k | 0 <= k < |q| ensures q[k] == r[k] {
      if k >= FIXED_SIZE {
        assert q[k] == q[FIXED_SIZE..][k - FIXED_SIZE];
      }
    }
  }

  /** The reserved bits do not take part in decoding. */
  lemma DecodeIgnoresReserved(p: seq<byte>, x: byte)
    requires |p| >= FIXED_SIZE
    requires (x as int) % 32 == (p[2] as int) % 32
    ensures DecodePayload(p[2 := x]) == DecodePayload(p)
  {
    assert p[2 := x][FIXED_SIZE..] == p[FIXED_SIZE..];
  }

  /** The value of a hexadecimal digit pair, high digit first. */
  function HexPair(hi: char, lo: char): byte
    requires IsDigit(hi, 16) && IsDigit(lo, 16)
  {
    (ToDigit(hi, 16) * 16 + ToDigit(lo, 16)) as byte
  }

  /** The bytes an even-length string of hexadecimal digits denotes, or None for an
      odd length or a character that is not a hexadecimal digit. */
  function HexaDecode(s: seq<char>): (r: Option<seq<byte>>)
    ensures r.Some? ==> 2 * |r.value| == |s|
    decreases |s|
  {
    if s == [] then Some([])
    else if |s| == 1 || !IsDigit(s[0], 16) || !IsDigit(s[1], 16) then None
    else
      match HexaDecode(s[2..])
      case None => None
      case Some(rest) => Some([HexPair(s[0], s[1])] + rest)
  }

  /** Two hexadecimal digits per byte, high digit first, in lower case. */
  function HexaEncode(b: seq<byte>): (s: seq<char>)
    ensures |s| == 2 * |b|
  {
    if b == [] then []
    else [HexDigit((b[0] as int) / 16), HexDigit((b[0] as int) % 16)] + HexaEncode(b[1..])
  }

  function HexDigit(n: nat): (c: char)
    requires n < 16
    ensures ToDigit(c, 16) == n
  {
    if n < 10 then ('0' as int + n) as char else ('a' as int + n - 10) as char
  }

  /** Hexadecimal decoding succeeds exactly on even-length strings of hexadecimal
      digits. */
  lemma {:induction false} HexaDecodeSucceeds(s: seq<char>)
    ensures HexaDecode(s).Some? <==> |s| % 2 == 0 && forall k :: 0 <= k < |s| ==> IsDigit(s[k], 16)
    decreases |s|
  {
    if |s| >= 2 {
      HexaDecodeSucceeds(s[2..]);
      assert forall k :: 2 <= k < |s| ==> s[k] == s[2..][k - 2];
    }
  }

  /** Decoding undoes encoding. */
  lemma {:induction false} HexaDecodeEncode(b: seq<byte>)
    ensures HexaDecode(HexaEncode(b)) == Some(b)
  {
    if b != [] {
      var s := HexaEncode(b);
      assert s[2..] == HexaEncode(b[1..]);
      HexaDecodeEncode(b[1..]);
      assert HexPair(s[0], s[1]) == b[0];
      assert b == [b[0]] + b[1..];
    }
  }

  /** A casid or pid part toInteger reads as a C++ int, with no thousands
      separator, and whose number as written lies in 0..max. The range is tested
      on the number before toInteger wraps it to 32 bits, so a literal wider than
      the field is rejected rather than truncated. */
  predicate InField(part: seq<char>, max: nat)
  {
    ToIntegerSpec(part, Int32, []).0 && 0 <= SignedValue(Lex(part, true).value) <= max
  }

  /** The value of a casid or pid part: the integer toInteger reads, which is then
      the number the part spells. */
  function ReadField(part: seq<char>, max: nat): (r: Option<nat>)
    requires max <= 0xFFFF
    ensures r.Some? <==> InField(part, max)
    ensures r.Some? ==> r.value <= max && r.value == ToIntegerSpec(part, Int32, []).1
    ensures r.Some? ==> r.value == SignedValue(Lex(part, true).value)
  {
    if InField(part, max) then
      ToIntegerValue(part, Int32, []);
      Some(ToIntegerSpec(part, Int32, []).1)
    else None
  }

  /** ReadField in terms of the outcome of toInteger. */
  lemma ReadFieldIs(part: seq<char>, max: nat, ok: bool, v: int)
    requires max <= 0xFFFF && (ok, v) == ToIntegerSpec(part, Int32, [])
    ensures ReadField(part, max) == if ok && InField(part, max) then Some(v) else None
  {
  }

  /** The fields described by the command-line form casid/pid[/private-data], or
      None. casid must fit a CA system id and pid a 13-bit PID; the private data
      is a string of hexadecimal digits. */
  function ParseCommandLine(value: seq<char>): (r: Option<CAFields>)
    ensures r.Some? ==> (r.value.caPid as int) < PID_MAX
  {
    ParseParts(Pieces(CStr(value), '/'))
  }

  /** The fields described by the '/'-separated parts of a command-line value. */
  function ParseParts(parts: seq<seq<char>>): (r: Option<CAFields>)
    ensures r.Some? ==> (r.value.caPid as int) < PID_MAX
  {
    if |parts| != 2 && |parts| != 3 then None
    else
      var casId := ReadField(parts[0], 0xFFFF);
      var pid := ReadField(parts[1], PID_MAX - 1);
      var data := if |parts| == 3 then HexaDecode(parts[2]) else Some([]);
      if casId.None? || pid.None? || data.None? then None
      else Some(CAFields(casId.value as uint16, pid.value as PID, data.value))
  }

  /** The parts split renders are the pieces ParseCommandLine reads. */
  lemma SplitParts(value: seq<char>, parts: seq<seq<char>>)
    requires parts == Segments(Pieces(CStr(value), '/'), false, false)
    ensures ParseParts(parts) == ParseCommandLine(value)
  {
    SegmentsPlain(Pieces(CStr(value), '/'));
  }

  /** Decode the parts of a command-line value with toInteger and the hexadecimal
      decoder. */
  method DecodeParts(parts: seq<seq<char>>) returns (r: Option<CAFields>)
    ensures r == ParseParts(parts)
  {
    if |parts| != 2 && |parts| != 3 {
      return None;
    }
    var okCas, casid := ToInteger(parts[0], Int32, []);
    var okPid, pid := ToInteger(parts[1], Int32, []);
    ReadFieldIs(parts[0], 0xFFFF, okCas, casid);
    ReadFieldIs(parts[1], PID_MAX - 1, okPid, pid);
    if !okCas || !okPid || !InField(parts[0], 0xFFFF) || !InField(parts[1], PID_MAX - 1) {
      return None;
    }
    var data: seq<byte> := [];
    if |parts| == 3 {
      var decoded := HexaDecode(parts[2]);
      if decoded.None? {
        return None;
      }
      data := decoded.value;
    }
    return Some(CAFields(casid as uint16, pid as PID, data));
  }

  /** What the command-line form accepts: two or three '/'-separated parts, the
      first two integers toInteger accepts whose numbers lie in the ranges of the
      fields, and an optional third part of hexadecimal digits of even length.
      The fields are then the numbers written. */
  lemma ParseCommandLineIs(value: seq<char>)
    ensures var parts := Pieces(CStr(value), '/');
      ParseCommandLine(value).Some? <==>
        (|parts| == 2 || |parts| == 3)
        && ToIntegerSpec(parts[0], Int32, []).0 && 0 <= SignedValue(Lex(parts[0], true).value) <= 0xFFFF
        && ToIntegerSpec(parts[1], Int32, []).0 && 0 <= SignedValue(Lex(parts[1], true).value) < PID_MAX
        && (|parts| == 3 ==> |parts[2]| % 2 == 0 && forall k :: 0 <= k < |parts[2]| ==> IsDigit(parts[2][k], 16))
    ensures ParseCommandLine(value).Some? ==>
      var parts := Pieces(CStr(value), '/');
      var f := ParseCommandLine(value).value;
      f.casId as int == SignedValue(Lex(parts[0], true).value) == ToIntegerSpec(parts[0], Int32, []).1
      && f.caPid as int == SignedValue(Lex(parts[1], true).value) == ToIntegerSpec(parts[1], Int32, []).1
      && (|parts| == 3 ==> HexaDecode(parts[2]) == Some(f.privateData))
      && (|parts| == 2 ==> f.privateData == [])
  {
    var parts := Pieces(CStr(value), '/');
    if |parts| == 3 {
      HexaDecodeSucceeds(parts[2]);
    }
  }

  /** The command-line text of some fields: casid and pid in decimal, as Decimal
      writes them with no separator, then the private data in hexadecimal. */
  function CommandLineText(f: CAFields): seq<char>
  {
    DecimalSpec(f.casId as int, 0, true, [], false, ' ') + ['/']
    + DecimalSpec(f.caPid as int, 0, true, [], false, ' ') + ['/'] + HexaEncode(f.privateData)
  }

  /** A number written in decimal holds neither '/' nor NUL. */
  lemma DecimalPlain(v: nat)
    ensures '/' !in DecimalSpec(v, 0, true, [], false, ' ')
    ensures '\0' !in DecimalSpec(v, 0, true, [], false, ' ')
  {
    var ds := DecimalDigits(v);
    HornerDecimal(v);
    GroupedAccepted(ds, [], 3, 10, []);
    var g := Grouped(ds, [], 3);
    assert DecimalSpec(v, 0, true, [], false, ' ') == g;
    assert forall k :: 0 <= k < |g| ==> IsDigit(g[k], 10);
  }

  /** Hexadecimal text holds neither '/' nor NUL. */
  lemma HexaPlain(b: seq<byte>)
    ensures '/' !in HexaEncode(b) && '\0' !in HexaEncode(b)
  {
    HexaDecodeEncode(b);
    HexaDecodeSucceeds(HexaEncode(b));
  }

  /** The pieces of a + "/" + b + "/" + c, when none of them holds '/'. */
  lemma PiecesThree(a: seq<char>, b: seq<char>, c: seq<char>)
    requires '/' !in a && '/' !in b && '/' !in c
    ensures Pieces(a + ['/'] + b + ['/'] + c, '/') == [a, b, c]
  {
    assert a + ['/'] + b + ['/'] + c == a + ['/'] + (b + ['/'] + c);
    PiecesCons(a, '/', b + ['/'] + c);
    PiecesCons(b, '/', c);
    PiecesNone(c, '/');
  }

  /** Joining strings without NUL by '/' gives a string without NUL. */
  lemma NulFreeThree(a: seq<char>, b: seq<char>, c: seq<char>)
    requires '\0' !in a && '\0' !in b && '\0' !in c
    ensures '\0' !in a + ['/'] + b + ['/'] + c
  {
  }

  /** The pieces of a + [c] + rest, when a holds no c. */
  lemma PiecesCons(a: seq<char>, c: char, rest: seq<char>)
    requires c !in a
    ensures Pieces(a + [c] + rest, c) == [a] + Pieces(rest, c)
  {
    var s := a + [c] + rest;
    IndexOfIs(s, c, |a|);
    assert s[..|a|] == a && s[|a| + 1..] == rest;
  }

  /** A string without c is a single piece. */
  lemma PiecesNone(a: seq<char>, c: char)
    requires c !in a
    ensures Pieces(a, c) == [a]
  {
    IndexOfIs(a, c, |a|);
  }

  /** A string without NUL is its own c_str() view. */
  lemma {:induction false} CStrPlain(s: seq<char>)
    requires '\0' !in s
    ensures CStr(s) == s
  {
    if s != [] {
      CStrPlain(s[1..]);
    }
  }

  /** The command-line form reads back the fields written in it by Decimal and
      the hexadecimal encoding, for every CA system id, every 13-bit PID and all
      private data. */
  lemma CommandLineRoundTrip(f: CAFields)
    requires (f.caPid as int) < PID_MAX
    ensures ParseCommandLine(CommandLineText(f)) == Some(f)
  {
    var a := DecimalSpec(f.casId as int, 0, true, [], false, ' ');
    var b := DecimalSpec(f.caPid as int, 0, true, [], false, ' ');
    var c := HexaEncode(f.privateData);
    DecimalPlain(f.casId as int);
    DecimalPlain(f.caPid as int);
    HexaPlain(f.privateData);
    NulFreeThree(a, b, c);
    CStrPlain(CommandLineText(f));
    PiecesThree(a, b, c);
    HexaDecodeEncode(f.privateData);
    ReadDecimal(f.casId as int, 0xFFFF);
    ReadDecimal(f.caPid as int, PID_MAX - 1);
    assert ParseParts([a, b, c]) == Some(f);
  }

  /** A field written in decimal reads back as itself. */
  lemma ReadDecimal(v: nat, max: nat)
    requires v <= max <= 0xFFFF
    ensures ReadField(DecimalSpec(v, 0, true, [], false, ' '), max) == Some(v)
  {
    DecimalRoundTrip(Int32, v, 0, true, [], false, ' ', []);
  }

  /** toInteger accepts digits of the base, after the 0x prefix in base 16, and
      the number they spell is their unbounded value. */
  lemma ReadLiteral(prefix: seq<char>, digits: seq<char>, base: nat)
    requires (base == 16 && prefix == "0x") || (base == 10 && prefix == "")
    requires digits != [] && AllDigits(digits, base)
    ensures Lex(prefix + digits, true) == Some(Literal(false, base, digits))
    ensures ToIntegerSpec(prefix + digits, Int32, []).0
    ensures SignedValue(Lex(prefix + digits, true).value) == Horner(digits, base)
  {
    if base == 16 {
      LexHexaPlain(digits);
    } else {
      LexDecimalPlain(digits);
    }
    ValidLenIs(digits, base, [], |digits|);
  }

  lemma LexHexaPlain(digits: seq<char>)
    requires digits != [] && AllDigits(digits, 16)
    ensures Lex("0x" + digits, true) == Some(Literal(false, 16, digits))
  {
    var part := "0x" + digits;
    assert part[|part| - 1] == digits[|digits| - 1];
    assert part[0] == '0' && part[1] == 'x' && part[2..] == digits;
    TrimNoSpace(part);
    assert HexPrefixed(part);
  }

  lemma LexDecimalPlain(digits: seq<char>)
    requires digits != [] && AllDigits(digits, 10)
    ensures Lex("" + digits, true) == Some(Literal(false, 10, digits))
  {
    assert "" + digits == digits;
    TrimNoSpace(digits);
    assert ToDigit(digits[0], 10) >= 0;
    assert digits[0] != '+' && digits[0] != '-';
    assert SignLen(digits) == 0 && digits[0..] == digits;
    assert !HexPrefixed(digits) by {
      if |digits| >= 2 {
        assert ToDigit(digits[1], 10) >= 0;
      }
    }
  }

  /** The value of digits with one more at the end. */
  lemma HornerAppend(d: seq<char>, c: char, base: nat)
    ensures Horner(d + [c], base) ==
      if ToDigit(c, base) >= 0 then Horner(d, base) * base + ToDigit(c, base) else Horner(d, base)
  {
    assert (d + [c])[..|d|] == d;
  }

  /** Digits led by a digit other than 0 spell at least base^(count - 1). */
  lemma {:induction false} HornerAtLeast(d: seq<char>, base: nat)
    requires base >= 2 && d != [] && ToDigit(d[0], base) >= 1 && AllDigits(d, base)
    ensures Horner(d, base) >= Pow(base, |d| - 1)
    decreases |d|
  {
    if |d| > 1 {
      var e := d[..|d| - 1];
      assert d == e + [d[|d| - 1]];
      assert e[0] == d[0];
      assert AllDigits(e, base) by {
        forall k | 0 <= k < |e| ensures ToDigit(e[k], base) >= 0 {
          assert e[k] == d[k];
        }
      }
      HornerAtLeast(e, base);
      HornerAppend(e, d[|d| - 1], base);
      MulAtLeast(Horner(e, base), Pow(base, |e| - 1), base);
    }
  }

  lemma MulAtLeast(h: int, p: int, b: nat)
    requires h >= p
    ensures h * b >= b * p
  {
  }

  /** Nine hexadecimal digits led by 1 spell a number wider than 16 bits. */
  lemma HornerWide(d: seq<char>)
    requires |d| == 9 && d[0] == '1' && AllDigits(d, 16)
    ensures Horner(d, 16) > 0xFFFF
  {
    HornerAtLeast(d, 16);
    assert Pow(16, 4) == 0x1_0000;
    assert Pow(16, 8) == Pow(16, 4) * Pow(16, 4) by {
      assert Pow(16, 8) == 16 * 16 * 16 * 16 * Pow(16, 4);
    }
  }

  /** The bytes of two hexadecimal digits followed by more. */
  lemma HexaDecodeCons(hi: char, lo: char, rest: seq<char>, b: seq<byte>)
    requires IsDigit(hi, 16) && IsDigit(lo, 16) && HexaDecode(rest) == Some(b)
    ensures HexaDecode([hi, lo] + rest) == Some([HexPair(hi, lo)] + b)
  {
    assert ([hi, lo] + rest)[2..] == rest;
  }

  /** A value of two parts without NUL parses as those parts. */
  lemma ParseTwo(value: seq<char>, a: seq<char>, b: seq<char>)
    requires value == a + ['/'] + b
    requires '/' !in a && '/' !in b && '\0' !in a && '\0' !in b
    ensures ParseCommandLine(value) == ParseParts([a, b])
  {
    CStrPlain(value);
    PiecesCons(a, '/', b);
    PiecesNone(b, '/');
  }

  /** A value of three parts without NUL parses as those parts. */
  lemma ParseThree(value: seq<char>, a: seq<char>, b: seq<char>, c: seq<char>)
    requires value == a + ['/'] + b + ['/'] + c
    requires '/' !in a && '/' !in b && '/' !in c && '\0' !in a && '\0' !in b && '\0' !in c
    ensures ParseCommandLine(value) == ParseParts([a, b, c])
  {
    NulFreeThree(a, b, c);
    CStrPlain(value);
    PiecesThree(a, b, c);
  }

  /** A field of digits reads as the number they spell, when it is in range, and is
      rejected otherwise. */
  lemma ReadDigits(prefix: seq<char>, digits: seq<char>, base: nat, max: nat)
    requires (base == 16 && prefix == "0x") || (base == 10 && prefix == "")
    requires digits != [] && AllDigits(digits, base) && max <= 0xFFFF
    ensures ReadField(prefix + digits, max) == if Horner(digits, base) <= max then Some(Horner(digits, base)) else None
  {
    ReadLiteral(prefix, digits, base);
  }

  lemma HornerExamples()
    ensures Horner("6a01", 16) == 0x6a01
    ensures Horner("50", 16) == 0x50
    ensures Horner("1", 10) == 1
    ensures Horner("99999", 10) == 99999
  {
    HornerAppend([], '6', 16);
    HornerAppend("6", 'a', 16);
    HornerAppend("6a", '0', 16);
    HornerAppend("6a0", '1', 16);
    assert "6a01" == [] + ['6'] + ['a'] + ['0'] + ['1'];
    HornerAppend([], '5', 16);
    HornerAppend("5", '0', 16);
    assert "50" == [] + ['5'] + ['0'];
    HornerAppend([], '1', 10);
    assert "1" == [] + ['1'];
    HornerAppend([], '9', 10);
    HornerAppend("9", '9', 10);
    HornerAppend("99", '9', 10);
    HornerAppend("999", '9', 10);
    HornerAppend("9999", '9', 10);
    assert "99999" == [] + ['9'] + ['9'] + ['9'] + ['9'] + ['9'];
  }

  lemma AllDigitsExamples()
    ensures AllDigits("6a01", 16) && AllDigits("50", 16)
    ensures AllDigits("100000001", 16) && AllDigits("100000051", 16)
    ensures AllDigits("1", 10) && AllDigits("99999", 10)
  {
  }

  /** A hexadecimal casid and pid are written with the 0x prefix. */
  lemma ParseCommandLineHexa()
    ensures ParseCommandLine("0x6a01/0x50") == Some(CAFields(0x6a01, 0x50, []))
  {
    assert "0x6a01" == "0x" + "6a01";
    assert "0x50" == "0x" + "50";
    ParseTwo("0x6a01/0x50", "0x6a01", "0x50");
    HornerExamples();
    AllDigitsExamples();
    ReadDigits("0x", "6a01", 16, 0xFFFF);
    ReadDigits("0x", "50", 16, PID_MAX - 1);
  }

  /** Without the 0x prefix, hexadecimal digits are not a decimal number. */
  lemma ParseCommandLineNoPrefix()
    ensures ParseCommandLine("6a01/0x50") == None
  {
    ParseTwo("6a01/0x50", "6a01", "0x50");
    LexNoPrefix("6a01");
  }

  lemma LexNoPrefix(s: seq<char>)
    requires s == "6a01"
    ensures Lex(s, true) == Some(Literal(false, 10, s))
    ensures !ToIntegerSpec(s, Int32, []).0
  {
    TrimNoSpace(s);
    ToIntegerRejectsOthers(s, Int32, [], 1);
  }

  /** The private data is decoded from its hexadecimal digits. */
  lemma ParseCommandLineData()
    ensures ParseCommandLine("1/1/deadbeef") == Some(CAFields(1, 1, [0xde, 0xad, 0xbe, 0xef]))
  {
    assert "1" == "" + "1";
    ParseThree("1/1/deadbeef", "1", "1", "deadbeef");
    HornerExamples();
    AllDigitsExamples();
    ReadDigits("", "1", 10, 0xFFFF);
    ReadDigits("", "1", 10, PID_MAX - 1);
    HexaExample();
  }

  lemma HexaExample()
    ensures HexaDecode("deadbeef") == Some([0xde, 0xad, 0xbe, 0xef])
  {
    assert "ef" == ['e', 'f'] + [];
    assert "beef" == ['b', 'e'] + "ef";
    assert "adbeef" == ['a', 'd'] + "beef";
    assert "deadbeef" == ['d', 'e'] + "adbeef";
    assert HexPair('e', 'f') == 0xef && HexPair('b', 'e') == 0xbe;
    assert HexPair('a', 'd') == 0xad && HexPair('d', 'e') == 0xde;
    HexaDecodeCons('e', 'f', [], []);
    assert [0xef as byte] + [] == [0xef];
    HexaDecodeCons('b', 'e', "ef", [0xef]);
    assert [0xbe as byte] + [0xef] == [0xbe, 0xef];
    HexaDecodeCons('a', 'd', "beef", [0xbe, 0xef]);
    assert [0xad as byte] + [0xbe, 0xef] == [0xad, 0xbe, 0xef];
    HexaDecodeCons('d', 'e', "adbeef", [0xad, 0xbe, 0xef]);
    assert [0xde as byte] + [0xad, 0xbe, 0xef] == [0xde, 0xad, 0xbe, 0xef];
  }

  /** Private data that is not hexadecimal is an error. */
  lemma ParseCommandLineBadData()
    ensures ParseCommandLine("1/1/xyz") == None
  {
    ParseThree("1/1/xyz", "1", "1", "xyz");
  }

  /** A PID beyond 13 bits is rejected. */
  lemma ParseCommandLinePidRange()
    ensures ParseCommandLine("1/99999") == None
  {
    assert "99999" == "" + "99999";
    ParseTwo("1/99999", "1", "99999");
    HornerExamples();
    AllDigitsExamples();
    ReadDigits("", "99999", 10, PID_MAX - 1);
  }

  /** A casid wider than an int is rejected, not reduced modulo 2^32. */
  lemma ParseCommandLineCasNoWrap()
    ensures ParseCommandLine("0x100000001/1") == None
  {
    assert "0x100000001" == "0x" + "100000001";
    ParseTwo("0x100000001/1", "0x100000001", "1");
    AllDigitsExamples();
    ReadDigits("0x", "100000001", 16, 0xFFFF);
    HornerWide("100000001");
  }

  /** A pid wider than an int is rejected, not reduced modulo 2^32. */
  lemma ParseCommandLinePidNoWrap()
    ensures ParseCommandLine("1/0x100000051") == None
  {
    assert "0x100000051" == "0x" + "100000051";
    ParseTwo("1/0x100000051", "1", "0x100000051");
    AllDigitsExamples();
    ReadDigits("0x", "100000051", 16, PID_MAX - 1);
    HornerWide("100000051");
  }

  /** A command-line value without private data names no more than two parts. */
  lemma ParseCommandLineNoData(value: seq<char>)
    requires ParseCommandLine(value).Some?
    requires '/' !in CStr(value)[IndexOf(CStr(value), '/') + 1..]
    ensures ParseCommandLine(value).value.privateData == []
  {
    var cs := CStr(value);
    var i := IndexOf(cs, '/');
    PiecesCount(cs, '/');
    if i < |cs| {
      var rest := cs[i + 1..];
      assert IndexOf(rest, '/') == |rest|;
    }
  }

  /** A CA_descriptor object: its three public fields and whether it holds a valid
      descriptor. */
  class CADescriptor {
    var casId: uint16
    var caPid: PID
    var privateData: seq<byte>
    var isValid: bool

    /** The fields as a value. */
    function Fields(): (f: CAFields)
      reads this
      ensures f.casId == casId && f.caPid == caPid && f.privateData == privateData
    {
      CAFields(casId, caPid, privateData)
    }

    /** CADescriptor(cas_id = 0, ca_pid = PID_NULL): the given ids and no private
        data. A PID wider than 13 bits is rejected: the object is then invalid. */
    constructor(casId: uint16 := 0, caPid: PID := PID_NULL)
      ensures this.casId == casId && this.caPid == caPid && privateData == []
      ensures isValid == ((caPid as int) < PID_MAX)
    {
      this.casId := casId;
      this.caPid := caPid;
      privateData := [];
      isValid := (caPid as int) < PID_MAX;
    }

    /** CADescriptor(bin): the object deserialized from a binary descriptor. */
    constructor FromDescriptor(bin: Descriptor)
      ensures isValid == (bin.tag == CA_DESCRIPTOR_TAG && DecodePayload(bin.payload).Some?)
      ensures isValid ==> Fields() == DecodePayload(bin.payload).value
      ensures !isValid ==> Fields() == CAFields(0, PID_NULL, [])
    {
      if bin.tag == CA_DESCRIPTOR_TAG && |bin.payload| >= FIXED_SIZE {
        var f := DecodePayload(bin.payload).value;
        casId, caPid, privateData := f.casId, f.caPid, f.privateData;
        isValid := true;
      } else {
        casId, caPid, privateData := 0, PID_NULL, [];
        isValid := false;
      }
    }

    /** serialize: the binary descriptor of a valid object, or None (nothing is
        encoded) for an invalid one or one whose private data does not fit. */
    function Serialize(): (d: Option<Descriptor>)
      reads this
      ensures d.Some? <==> isValid && FIXED_SIZE + |privateData| <= MAX_DESCRIPTOR_SIZE
      ensures d.Some? ==> d.value.tag == CA_DESCRIPTOR_TAG
      ensures d.Some? ==> |d.value.payload| == FIXED_SIZE + |privateData| <= MAX_DESCRIPTOR_SIZE
      ensures d.Some? ==>
        DecodePayload(d.value.payload) == Some(CAFields(casId, ((caPid as int) % PID_MAX) as PID, privateData))
    {
      if isValid && FIXED_SIZE + |privateData| <= MAX_DESCRIPTOR_SIZE then
        Some(Descriptor(CA_DESCRIPTOR_TAG, EncodePayload(Fields())))
      else None
    }

    /** deserialize: decode a binary descriptor into this object. A descriptor with
        another tag or fewer than 4 payload bytes leaves the object invalid, with
        the default fields. */
    method Deserialize(bin: Descriptor)
      modifies this
      ensures isValid == (bin.tag == CA_DESCRIPTOR_TAG && |bin.payload| >= FIXED_SIZE)
      ensures isValid ==> Some(Fields()) == DecodePayload(bin.payload)
      ensures !isValid ==> Fields() == CAFields(0, PID_NULL, [])
    {
      isValid := bin.tag == CA_DESCRIPTOR_TAG && |bin.payload| >= FIXED_SIZE;
      if isValid {
        var p := bin.payload;
        casId := ((p[0] as int) * 256 + (p[1] as int)) as uint16;
        caPid := (((p[2] as int) % 32) * 256 + (p[3] as int)) as PID;
        privateData := p[FIXED_SIZE..];
      } else {
        casId, caPid, privateData := 0, PID_NULL, [];
      }
    }

    /** fromCommmandLine: fill the object from casid/pid[/private-data]. On success
        the object is valid and holds the parsed fields; on error it is unchanged. */
    method FromCommandLine(value: seq<char>) returns (ok: bool)
      modifies this
      ensures ok == ParseCommandLine(value).Some?
      ensures ok ==> isValid && Fields() == ParseCommandLine(value).value
      ensures !ok ==> Fields() == old(Fields()) && isValid == old(isValid)
    {
      var parts := Split(value, '/', false, false);
      SplitParts(value, parts);
      var fields := DecodeParts(parts);
      if fields.None? {
        return false;
      }
      casId, caPid, privateData := fields.value.casId, fields.value.caPid, fields.value.privateData;
      isValid := true;
      return true;
    }
  }

  /** The binary descriptor a command-line value adds to a list, if any. */
  function CommandLineDescriptor(value: seq<char>): (r: Option<Descriptor>)
  {
    match ParseCommandLine(value)
    case None => None
    case Some(f) =>
      if FIXED_SIZE + |f.privateData| <= MAX_DESCRIPTOR_SIZE then
        Some(Descriptor(CA_DESCRIPTOR_TAG, EncodePayload(f)))
      else None
  }

  /** The outcome of each command-line value. */
  function Outcomes(values: seq<seq<char>>): (r: seq<Option<Descriptor>>)
    ensures |r| == |values|
    ensures forall k :: 0 <= k < |values| ==> r[k] == CommandLineDescriptor(values[k])
  {
    seq(|values|, k requires 0 <= k < |values| => CommandLineDescriptor(values[k]))
  }

  /** The descriptors added for values, in order, skipping the values in error. */
  function Added(values: seq<seq<char>>): (r: seq<Descriptor>)
    ensures |r| <= |values|
  {
    Present(Outcomes(values))
  }

  /** Every value is a correct command-line CA_descriptor whose private data fits. */
  predicate AllAdded(values: seq<seq<char>>)
  {
    forall k :: 0 <= k < |values| ==> CommandLineDescriptor(values[k]).Some?
  }

  /** A command-line value gives a descriptor exactly when it parses and its private
      data fits; that descriptor is a CA_descriptor whose payload decodes to the
      parsed fields. */
  lemma CommandLineDescriptorIs(value: seq<char>)
    ensures CommandLineDescriptor(value).Some? <==>
      ParseCommandLine(value).Some? && FIXED_SIZE + |ParseCommandLine(value).value.privateData| <= MAX_DESCRIPTOR_SIZE
    ensures CommandLineDescriptor(value).Some? ==>
      CommandLineDescriptor(value).value.tag == CA_DESCRIPTOR_TAG
      && |CommandLineDescriptor(value).value.payload| <= MAX_DESCRIPTOR_SIZE
      && DecodePayload(CommandLineDescriptor(value).value.payload) == ParseCommandLine(value)
  {
    if ParseCommandLine(value).Some? {
      DecodeEncode(ParseCommandLine(value).value);
    }
  }

  /** Added over one more value. */
  lemma AddedStep(values: seq<seq<char>>, i: nat)
    requires i < |values|
    ensures var d := CommandLineDescriptor(values[i]);
      Added(values[..i + 1]) == Added(values[..i]) + (if d.Some? then [d.value] else [])
  {
    var xs := Outcomes(values[..i + 1]);
    assert xs[..i] == Outcomes(values[..i]);
  }

  /** One descriptor is added per value exactly when every value is correct, and
      then the k-th descriptor is the one the k-th value describes. */
  lemma AddedAll(values: seq<seq<char>>)
    ensures |Added(values)| == |values| <==> AllAdded(values)
    ensures |Added(values)| == |values| ==>
      forall k :: 0 <= k < |values| ==> CommandLineDescriptor(values[k]) == Some(Added(values)[k])
  {
    PresentAll(Outcomes(values));
  }

  /** Every added descriptor is a CA_descriptor whose payload fits. */
  lemma {:induction false} AddedWellFormed(values: seq<seq<char>>)
    ensures forall k :: 0 <= k < |Added(values)| ==>
      Added(values)[k].tag == CA_DESCRIPTOR_TAG
      && FIXED_SIZE <= |Added(values)[k].payload| <= MAX_DESCRIPTOR_SIZE
  {
    var xs := Outcomes(values);
    if values != [] {
      var n := |values| - 1;
      AddedWellFormed(values[..n]);
      AddedStep(values, n);
      assert values[..n + 1] == values;
      CommandLineDescriptorIs(values[n]);
    }
  }

  /** The descriptor a freshly decoded object serializes to is the one its
      command-line value describes. */
  lemma SerializeParsed(desc: CADescriptor, value: seq<char>, decoded: bool, bin: Option<Descriptor>)
    requires decoded == ParseCommandLine(value).Some?
    requires decoded ==> desc.isValid && desc.Fields() == ParseCommandLine(value).value
    requires bin == if decoded then desc.Serialize() else None
    ensures bin == CommandLineDescriptor(value)
  {
    if decoded {
      ModSmall(desc.caPid as int, PID_MAX);
    }
  }

  /** One step of AddFromCommandLine: a new CA_descriptor filled from the value and
      serialized, or None when the value is in error. */
  method DecodeValue(value: seq<char>) returns (bin: Option<Descriptor>)
    ensures bin == CommandLineDescriptor(value)
  {
    var desc := new CADescriptor();
    var decoded := desc.FromCommandLine(value);
    bin := if decoded then desc.Serialize() else None;
    SerializeParsed(desc, value, decoded, bin);
  }

  /** A list of binary descriptors, in wire order. */
  class DescriptorList {
    var descs: seq<Descriptor>

    constructor()
      ensures descs == []
    {
      descs := [];
    }

    /** add: append a descriptor at the end. */
    method Add(d: Descriptor)
      modifies this
      ensures descs == old(descs) + [d]
    {
      descs := descs + [d];
    }
  }

  /** AddFromCommandLine(dlist, values): decode each value and append the resulting
      descriptor to the list. A value in error is skipped and the others are still
      added; the result is false when any value was in error. */
  method AddFromCommandLine(dlist: DescriptorList, values: seq<seq<char>>) returns (ok: bool)
    modifies dlist
    ensures dlist.descs == old(dlist.descs) + Added(values)
    ensures ok == AllAdded(values)
  {
    ok := true;
    var i := 0;
    while i < |values|
      invariant i <= |values|
      invariant dlist.descs == old(dlist.descs) + Added(values[..i])
      invariant ok == (|Added(values[..i])| == i)
    {
      var bin := DecodeValue(values[i]);
      AddedStep(values, i);
      assert |values[..i]| == i;
      if bin.Some? {
        dlist.Add(bin.value);
      } else {
        ok := false;
      }
      i := i + 1;
    }
    assert values[..i] == values;
    AddedAll(values);
  }
}
