# tsduck string templates and CA_descriptor, modelled in Dafny

This project models two parts of the tsduck transport-stream toolkit.

The first is the template part of `ts::UString`, tsduck's UTF-16 string class
(`src/libtsduck/tsUStringTemplate.h`). It covers these operations:

- `assign` from a vector or an array with a character count, and the constructors that call it;
- `split`, `splitBlocks`, `splitLines` and `Join`;
- `toInteger` and `toIntegers`;
- `Decimal`, `Hexa` and `trimLength`.

The second is the `CA_descriptor` of MPEG-2 systems (`src/libtsduck/tsCADescriptor.h`):

- its three fields and its two constructors;
- its binary serialization, with the layout of section 2.6.16 of ISO/IEC 13818-1;
- its command-line form `casid/pid[/private-data]`, and the static function
  that adds a list of such values to a descriptor list.

Each operation that works step by step is a Dafny `method` with the source's loop.
Each such method is proved equal to a reference function. The properties the library
relies on are then proved as lemmas about those functions:

- the count, content and round trip of `split`;
- the shape of each block found by `splitBlocks`;
- the width bound of `splitLines` when a split is forced;
- the conditions under which `toInteger` succeeds, and the value it gives under the
  two's-complement wrap-around the model takes for arithmetic in INT;
- `Decimal` and `Hexa` read back by `toInteger`;
- the encode/decode round trip of the CA_descriptor payload;
- the round trip of the CA_descriptor's command-line form, and the values it rejects;
- the arrangement of a descriptor list built from command-line values.

Files:

- `IntTypes.dfy`: the C++ integral types (8, 16, 32 or 64 bits, signed or not) and
  explicit wrap-around modulo 2^bits.
- `UChars.dfy`: the character helpers the templates call (`IsSpace`, `ToDigit`,
  the c_str() view, `trim`).
- `Optional.dfy`: the option type and the list of present values.
- `UStringAssign.dfy`: `assign`, the template constructors and `trimLength`, on a
  `UString` class whose characters the methods replace.
- `UStringSplit.dfy`: `split` and `Join`.
- `UStringBlocks.dfy`: `splitBlocks`.
- `UStringLines.dfy`: `splitLines`.
- `UStringInteger.dfy`: `toInteger` and `toIntegers`.
- `UStringFormat.dfy`: `Decimal` and `Hexa`, plus `Decimal` as written in the source.
- `FormatRoundTrip.dfy`: `toInteger` reads back what `Decimal` and `Hexa` write.
- `CADescriptor.dfy`: the CA_descriptor class, its codec, its command-line parser and
  `AddFromCommandLine`.

The implementation file `tsCADescriptor.cpp` is not part of this model. The header
documents what `serialize`, `deserialize`, `fromCommmandLine` and `AddFromCommandLine`
do, and section 2.6.16 of ISO/IEC 13818-1 fixes the binary layout. Where neither says
what happens, the model makes a choice of its own. Each choice is marked below.

- `serialize` writes the tag 0x09. It writes CA_system_id big-endian. It writes three
  reserved bits set to 1, then the low 13 bits of CA_PID. Then it writes the private data.
  A descriptor longer than 255 bytes of payload cannot be formed, so serialization fails.
- `deserialize` needs the tag 0x09 and a payload of at least 4 bytes. Otherwise the
  object becomes invalid. Modelling choice: its fields then return to the constructor
  defaults (0, PID_NULL, no data).
- The constructor takes `cas_id` and `ca_pid`, with the defaults 0 and PID_NULL.
  Modelling choice: it marks the object invalid when `ca_pid` is not a 13-bit PID.
  The header states no such check. So `serialize` gives no descriptor for an object
  built with a wider PID, rather than one whose PID is cut to 13 bits.
- `fromCommmandLine` splits its value on '/' into two or three parts.
  - CA_system_id and CA_PID are read with `toInteger`, as for a 32-bit signed integer.
  - Modelling choice: the range test uses the literal's own value, before any 32-bit
    wrap-around. CA_system_id must lie in 0..0xFFFF and CA_PID in 0..0x1FFF. So a
    literal too wide for 32 bits is rejected rather than truncated; for example
    `0x100000001/1` is rejected.
  - The private data, when present, is an even number of hexadecimal digits.
  - Modelling choice: on failure the object is left unchanged.
  - Hexadecimal values need the `0x` prefix of `toInteger`. So a value such as
    `6a01/0x50` is rejected, and `0x6a01/0x50` is accepted.
- `AddFromCommandLine` adds the descriptor of every value that parses and fits.
  Modelling choice: a value in error is skipped and the scan goes on with the next
  one. The result is false when any value was skipped.

## Model

| member | source | states |
|---|---|---|
| IntTypes.IntType.Wrap | src/libtsduck/tsUStringTemplate.h:475 | the model takes arithmetic in INT to give the value of the type congruent modulo 2^bits; a value already in the type is left unchanged |
| IntTypes.WrapNeg | src/libtsduck/tsUStringTemplate.h:486 | under that wrap, negating a wrapped value in INT is wrapping the negation |
| IntTypes.WrapModulus | src/libtsduck/tsUStringTemplate.h:670-672 | the value modulo 2^bits wraps back to the value itself |
| IntTypes.NibblesModulus | src/libtsduck/tsUStringTemplate.h:664-666 | 2*sizeof(INT) hexadecimal digits span exactly the 2^bits values of INT |
| UChars.CStr | src/libtsduck/tsUStringTemplate.h:149 | the c_str() view is the longest prefix without NUL |
| UChars.TrimLeadingShape | src/libtsduck/tsUStringTemplate.h:434-436 | leading trim removes exactly the leading white space |
| UChars.TrimTrailingShape | src/libtsduck/tsUStringTemplate.h:437-439 | trailing trim removes exactly the trailing white space |
| UChars.TrimBoth | src/libtsduck/tsUStringTemplate.h:158-160 | a trimmed string neither starts nor ends with white space |
| UStringAssign.Assigned | src/libtsduck/tsUStringTemplate.h:52-63 | the assigned text is a NUL-free prefix of the input of at most `last` characters, stopping early only at a NUL |
| UStringAssign.AssignedUnique | src/libtsduck/tsUStringTemplate.h:56-60 | those properties determine the assigned text completely |
| UStringAssign.AssignWhole | src/libtsduck/tsUStringTemplate.h:95-99 | assign(vec) stops only at the first NUL |
| UStringAssign.AssignCountClamped | src/libtsduck/tsUStringTemplate.h:54 | a count past the size equals the size; a non-positive count assigns the empty string |
| UStringAssign.UString.AssignVector | src/libtsduck/tsUStringTemplate.h:45-66 | the loop leaves the string holding exactly the assigned text |
| UStringAssign.UString.AssignArray | src/libtsduck/tsUStringTemplate.h:68-89 | the same for a fixed-size array |
| UStringAssign.UString.FromVector | src/libtsduck/tsUStringTemplate.h:112-124 | the vector constructors build the assigned text |
| UStringAssign.UString.FromArray | src/libtsduck/tsUStringTemplate.h:126-138 | the array constructors build the assigned text |
| UStringAssign.UString.TrimLength | src/libtsduck/tsUStringTemplate.h:726-733 | the new text is the old one truncated, then trimmed at its end if asked |
| UStringAssign.Trimmed | src/libtsduck/tsUStringTemplate.h:726-733 | the result is a prefix of the truncated text; without trimming it is exactly that text; with it, what is removed is white space and the result has no trailing white space |
| UStringAssign.TrimmedIdempotent | src/libtsduck/tsUStringTemplate.h:726-733 | trimLength applied twice equals trimLength applied once |
| UStringSplit.IndexOf | src/libtsduck/tsUStringTemplate.h:154-155 | the index of the first separator, or the length when there is none |
| UStringSplit.FindSeparator | src/libtsduck/tsUStringTemplate.h:154-155 | the scan stops at the first separator or at the terminating NUL |
| UStringSplit.Split | src/libtsduck/tsUStringTemplate.h:145-167 | the container holds the pieces between separators of the c_str() view, trimmed and filtered as asked; untrimmed and unfiltered, there are count+1 of them, none holds the separator, and they rebuild the string |
| UStringSplit.SegmentsShape | src/libtsduck/tsUStringTemplate.h:158-163 | with removeEmpty no segment is empty; with trimSpaces no segment starts or ends with white space |
| UStringSplit.PiecesCount | src/libtsduck/tsUStringTemplate.h:152-166 | there is one more piece than there are separators |
| UStringSplit.PiecesSeparatorFree | src/libtsduck/tsUStringTemplate.h:154-157 | no piece contains the separator |
| UStringSplit.PiecesInterleave | src/libtsduck/tsUStringTemplate.h:152-166 | the pieces joined with the separator give back the string |
| UStringSplit.SegmentsPlain | src/libtsduck/tsUStringTemplate.h:158-163 | without trimming or removal every piece is kept unchanged |
| UStringSplit.SplitPlain | src/libtsduck/tsUStringTemplate.h:145-167 | count, separator-free pieces and the round trip of an untrimmed and unfiltered split |
| UStringSplit.Join | src/libtsduck/tsUStringTemplate.h:281-293 | the result is the elements with the separator between them, once the leading empty elements are dropped |
| UStringSplit.JoinStep | src/libtsduck/tsUStringTemplate.h:285-291 | one more element extends the join correctly |
| UStringSplit.DropLeadingEmptyShape | src/libtsduck/tsUStringTemplate.h:286-288 | only a prefix of empty elements is dropped |
| UStringSplit.JoinWithoutLeadingEmpty | src/libtsduck/tsUStringTemplate.h:286-289 | when the first element is non-empty, Join is the plain interleaving |
| UStringSplit.JoinDropsLeadingEmpty | src/libtsduck/tsUStringTemplate.h:286-289 | a leading empty element emits no separator |
| UStringSplit.JoinSplit | src/libtsduck/tsUStringTemplate.h:281-293 | Join undoes a plain split, unless the string starts with the separator |
| UStringBlocks.SplitBlocks | src/libtsduck/tsUStringTemplate.h:174-213 | the container is the list of blocks of the reference definition |
| UStringBlocks.AppendBlock | src/libtsduck/tsUStringTemplate.h:181-212 | one turn of the do-while loop appends the next block and either resumes after its closing character or ends with the whole list of blocks |
| UStringBlocks.NextBlock | src/libtsduck/tsUStringTemplate.h:181-212 | one iteration produces the next block and resumes after its closing character |
| UStringBlocks.SkipToOpen | src/libtsduck/tsUStringTemplate.h:184-187 | the scan stops at the next opening character or at the end |
| UStringBlocks.FindClose | src/libtsduck/tsUStringTemplate.h:190-202 | the scan stops where nesting depth first returns to zero, or at the end |
| UStringBlocks.NextOpen | src/libtsduck/tsUStringTemplate.h:184-187 | the position found is within the text and holds the opening character when it is not the end |
| UStringBlocks.NextOpenSkips | src/libtsduck/tsUStringTemplate.h:184-187 | no opening character is skipped |
| UStringBlocks.NoBlock | src/libtsduck/tsUStringTemplate.h:184-212 | a text with no opening character gives one empty block |
| UStringBlocks.MatchEndShape | src/libtsduck/tsUStringTemplate.h:190-202 | before the stop the nesting depth stays positive; at the stop the closing character brings it to zero |
| UStringBlocks.BlockShape | src/libtsduck/tsUStringTemplate.h:189-204 | a block is balanced when closed, and never closes back to depth zero when it runs to the end |
| UStringBlocks.BlocksShape | src/libtsduck/tsUStringTemplate.h:174-213 | without trimming, every block is empty or starts with the opening character; every block but the last is balanced, and the last is balanced or runs unclosed to the end |
| UStringBlocks.BlocksTrimmed | src/libtsduck/tsUStringTemplate.h:204-208 | with trimSpaces, the k-th block is the k-th untrimmed block trimmed at both ends, and there are as many of them |
| UStringLines.SplitLines | src/libtsduck/tsUStringTemplate.h:220-274 | the lines are those of the reference layout; a short text, or a margin as wide as the limit, gives the text alone |
| UStringLines.LineStep | src/libtsduck/tsUStringTemplate.h:238-268 | one iteration keeps the layout invariant and makes progress |
| UStringLines.SkipLeadingSpaces | src/libtsduck/tsUStringTemplate.h:259-262 | the new line starts at the first non-space character |
| UStringLines.SkipSpaces | src/libtsduck/tsUStringTemplate.h:259-262 | the skipped characters are white space, and the stop is not |
| UStringLines.LinesCut | src/libtsduck/tsUStringTemplate.h:244-264 | a cut pushes the line up to the last break, with the margin after the first line |
| UStringLines.LinesNoCut | src/libtsduck/tsUStringTemplate.h:239-267 | without a cut only the last break position and the cursor move |
| UStringLines.LinesEnd | src/libtsduck/tsUStringTemplate.h:270-273 | the rest of the text becomes the last line |
| UStringLines.ScanTiles | src/libtsduck/tsUStringTemplate.h:238-268 | the lines are non-empty consecutive slices of the text, each starting where the previous one ended once white space is skipped |
| UStringLines.SplitLinesTiles | src/libtsduck/tsUStringTemplate.h:220-274 | the same for the whole of splitLines |
| UStringLines.ScanWidth | src/libtsduck/tsUStringTemplate.h:244-254 | with forceSplit, every line with its margin fits the width |
| UStringLines.RenderWidth | src/libtsduck/tsUStringTemplate.h:256 | the rendered lines keep that width |
| UStringLines.SplitLinesForcedWidth | src/libtsduck/tsUStringTemplate.h:220-274 | with forceSplit and a margin narrower than the limit, no line is wider than maxWidth |
| UStringLines.SplitLinesForcedAgrees | src/libtsduck/tsUStringTemplate.h:270-273 | with forceSplit, the source's last-line margin and the corrected one agree |
| UStringLines.ScanNoBreak | src/libtsduck/tsUStringTemplate.h:238-268 | a text with no break point and no forced split is never cut |
| UStringLines.SplitLinesAsWrittenMargin | src/libtsduck/tsUStringTemplate.h:270-273 | an over-long text that is never cut gets the margin on its only line, which is the first line |
| UStringLines.SplitLinesAsWrittenExample | src/libtsduck/tsUStringTemplate.h:270-273 | the smallest such input |
| UStringInteger.Lex | src/libtsduck/tsUStringTemplate.h:431-467 | the literal found has digits, is in base 10 or 16, and is negative only for a signed type |
| UStringInteger.LexBodyAt | src/libtsduck/tsUStringTemplate.h:441-467 | the pointer moves of the sign and prefix step find that literal |
| UStringInteger.ScanPrefix | src/libtsduck/tsUStringTemplate.h:441-467 | the sign and prefix step either finds no digits, where the reference lexer finds no literal, or stops at the start of the digits of the literal that lexer finds, with its sign and base |
| UStringInteger.ValidLen | src/libtsduck/tsUStringTemplate.h:471-482 | the decode loop stops at the first character that is neither a digit nor a thousands separator |
| UStringInteger.ToIntegerSpec | src/libtsduck/tsUStringTemplate.h:409-495 | the result lies in INT; it is false with 0 when no literal is found |
| UStringInteger.ToInteger | src/libtsduck/tsUStringTemplate.h:409-495 | the method computes the reference result |
| UStringInteger.TrimBounds | src/libtsduck/tsUStringTemplate.h:431-439 | the two bounds delimit the trimmed text |
| UStringInteger.DecodeDigits | src/libtsduck/tsUStringTemplate.h:470-482 | the loop stops where the accepted prefix ends, with its value wrapped into INT |
| UStringInteger.ToIntegerValue | src/libtsduck/tsUStringTemplate.h:470-487 | on success the value is the signed number as the model takes it wrapped into INT; when that number fits, it is the number itself |
| UStringInteger.ToIntegerSucceeds | src/libtsduck/tsUStringTemplate.h:464-490 | success if and only if a literal is found and all its characters are digits or thousands separators |
| UStringInteger.ToIntegerNoDigits | src/libtsduck/tsUStringTemplate.h:464-467 | an empty text, a lone sign or a bare 0x prefix is rejected with 0 |
| UStringInteger.ToIntegerUnsignedNegative | src/libtsduck/tsUStringTemplate.h:447-451 | a minus sign is rejected for an unsigned type |
| UStringInteger.ToIntegerRejectsOthers | src/libtsduck/tsUStringTemplate.h:477-480 | any other character makes the decoding fail |
| UStringInteger.SkipList | src/libtsduck/tsUStringTemplate.h:519-521 | spaces and list separators are skipped, up to the first other character |
| UStringInteger.SegmentEnd | src/libtsduck/tsUStringTemplate.h:523-526 | an item ends at the next list separator |
| UStringInteger.ListSegmentsShape | src/libtsduck/tsUStringTemplate.h:517-530 | every item is non-empty, starts with neither a space nor a list separator, and contains no list separator |
| UStringInteger.ListSegmentsCover | src/libtsduck/tsUStringTemplate.h:517-530 | the items, with the runs of characters between them, rebuild the text from the start position; those runs are made only of white space and list separators |
| UStringInteger.ToIntegers | src/libtsduck/tsUStringTemplate.h:502-543 | the container holds the values of the leading items that decode; the result is true if and only if every item decodes, and then every value is present; otherwise decoding stopped at the first failing item |
| UStringFormat.TruncDivMod | src/libtsduck/tsUStringTemplate.h:612-613 | C++ / and % truncate toward zero: the dividend is the divisor times the quotient plus the remainder; the remainder has the sign of the dividend and is smaller than the divisor in size; the quotient of a negative dividend is the negated quotient of its magnitude |
| UStringFormat.GroupedRevReverse | src/libtsduck/tsUStringTemplate.h:577-579 | building backwards with the reversed separator and reversing gives digits grouped from the right |
| UStringFormat.GroupedRevSnoc | src/libtsduck/tsUStringTemplate.h:614-616 | the separator goes before every third (or fourth) new digit |
| UStringFormat.GroupStep | src/libtsduck/tsUStringTemplate.h:611-617 | one iteration of the digit loop extends the reversed grouping |
| UStringFormat.GroupedLength | src/libtsduck/tsUStringTemplate.h:614-616 | a grouped number has one separator per full group after the first |
| UStringFormat.RevDecimalReverse | src/libtsduck/tsUStringTemplate.h:611-613 | the digits pushed least significant first, reversed, are the decimal digits |
| UStringFormat.RevNibblesReverse | src/libtsduck/tsUStringTemplate.h:670-682 | the nibbles pushed least significant first, reversed, are the hexadecimal digits |
| UStringFormat.Decimal | src/libtsduck/tsUStringTemplate.h:565-641 | the text is the sign, then the magnitude's digits grouped by three, then padding to min_width |
| UStringFormat.DecimalReversed | src/libtsduck/tsUStringTemplate.h:619-627 | reversing the backwards text gives the sign followed by the grouped digits |
| UStringFormat.RevDigitsPositive | src/libtsduck/tsUStringTemplate.h:611-613 | for a positive value, the digit loop as written pushes the decimal digits |
| UStringFormat.DecimalAsWrittenAgrees | src/libtsduck/tsUStringTemplate.h:584-641 | except at the minimum of a signed type, the code as written gives the reference text |
| UStringFormat.MinimumNegation | src/libtsduck/tsUStringTemplate.h:595 | under the wrap the model takes, the minimum of a signed type negated in the type is itself, and its truncated remainder by 10 is negative |
| UStringFormat.DecimalAsWrittenMinimum | src/libtsduck/tsUStringTemplate.h:595-613 | at the minimum of a signed type, the last character written is below '0' |
| UStringFormat.DecimalAsWrittenInt8 | src/libtsduck/tsUStringTemplate.h:595-613 | Decimal<int8_t>(-128) is "-/.(" as written, and "-128" as intended |
| UStringFormat.Hexa | src/libtsduck/tsUStringTemplate.h:648-696 | the text is the optional 0x prefix, then width nibbles (default 2*sizeof(INT)), most significant first, grouped by four |
| UStringFormat.ReversedNibbles | src/libtsduck/tsUStringTemplate.h:669-686 | the loop lists the nibbles backwards with the reversed separator every four digits |
| UStringFormat.HexaReversed | src/libtsduck/tsUStringTemplate.h:688-695 | reversing gives the prefix followed by the grouped nibbles |
| FormatRoundTrip.HornerGrouped | src/libtsduck/tsUStringTemplate.h:477-481 | separators that are not digits do not change the value read |
| FormatRoundTrip.GroupedAccepted | src/libtsduck/tsUStringTemplate.h:477-481 | a grouped number uses only digits and skipped separators |
| FormatRoundTrip.HornerDecimal | src/libtsduck/tsUStringTemplate.h:611-613 | the decimal digits read back their number |
| FormatRoundTrip.HornerNibbles | src/libtsduck/tsUStringTemplate.h:670-682 | width nibbles read back the value modulo 16^width |
| FormatRoundTrip.TrimJustify | src/libtsduck/tsUStringTemplate.h:629-637 | white-space padding is removed by the trim of toInteger |
| FormatRoundTrip.DecimalTrim | src/libtsduck/tsUStringTemplate.h:629-637 | the trimmed Decimal text is its sign and grouped digits |
| FormatRoundTrip.DecimalLex | src/libtsduck/tsUStringTemplate.h:619-627 | toInteger finds that sign and those digits in a Decimal text |
| FormatRoundTrip.DecimalRoundTrip | src/libtsduck/tsUStringTemplate.h:565-641 | toInteger reads back the value Decimal wrote, whatever the sign, the padding when it is white space or when none happens, or the separator accepted as a thousands separator; the literal it finds denotes that value |
| FormatRoundTrip.ReadBack | src/libtsduck/tsUStringTemplate.h:484-490 | a literal denoting the magnitude of a value of INT reads back that value |
| FormatRoundTrip.HexaLex | src/libtsduck/tsUStringTemplate.h:688-692 | toInteger sees the 0x prefix of Hexa and its grouped nibbles |
| FormatRoundTrip.HexaRoundTrip | src/libtsduck/tsUStringTemplate.h:648-696 | toInteger reads back the Hexa value modulo 16^width, brought into INT |
| FormatRoundTrip.HexaRoundTripDefault | src/libtsduck/tsUStringTemplate.h:663-666 | with the default width, toInteger reads back exactly the value |
| CADescriptor.EncodePayload | src/libtsduck/tsCADescriptor.h:106 | the payload is CA_system_id big-endian, three reserved 1 bits, the PID's 13 bits, then the private data |
| CADescriptor.DecodePayload | src/libtsduck/tsCADescriptor.h:107 | decoding succeeds if and only if there are at least 4 bytes; the PID fits 13 bits and the rest is the private data |
| CADescriptor.DecodeEncode | src/libtsduck/tsCADescriptor.h:106-107 | decoding an encoded descriptor gives back its fields |
| CADescriptor.EncodeDecode | src/libtsduck/tsCADescriptor.h:106-107 | encoding decoded fields gives back the payload with its reserved bits set |
| CADescriptor.DecodeIgnoresReserved | src/libtsduck/tsCADescriptor.h:107 | the reserved bits do not affect the decoded fields |
| CADescriptor.HexaDecode | src/libtsduck/tsCADescriptor.h:89 | the private data has half as many bytes as there are digits |
| CADescriptor.HexDigit | src/libtsduck/tsCADescriptor.h:89 | each digit written reads back its value |
| CADescriptor.HexaDecodeSucceeds | src/libtsduck/tsCADescriptor.h:89 | the private data decodes if and only if there is an even number of hexadecimal digits |
| CADescriptor.HexaDecodeEncode | src/libtsduck/tsCADescriptor.h:89 | the hexadecimal text of any bytes decodes back to them |
| CADescriptor.ReadField | src/libtsduck/tsCADescriptor.h:88 | a part gives a field exactly when toInteger accepts it as a 32-bit integer and the literal's own value lies in 0..max; the field is that value, so a literal wider than 32 bits is rejected, not truncated |
| CADescriptor.ReadFieldIs | src/libtsduck/tsCADescriptor.h:88 | the field read from the integer toInteger returns is the reference field |
| CADescriptor.ParseParts | src/libtsduck/tsCADescriptor.h:86-89 | two or three parts give fields whose PID fits 13 bits |
| CADescriptor.SplitParts | src/libtsduck/tsCADescriptor.h:86-87 | the untrimmed, unfiltered split of the value on '/' gives the parts the reference parser reads |
| CADescriptor.DecodeParts | src/libtsduck/tsCADescriptor.h:86-89 | reading the parts with toInteger and the hexadecimal decoder gives the reference fields |
| CADescriptor.ParseCommandLine | src/libtsduck/tsCADescriptor.h:85-93 | a parsed PID always fits 13 bits |
| CADescriptor.ParseCommandLineIs | src/libtsduck/tsCADescriptor.h:85-93 | parsing succeeds if and only if there are two or three parts, casid and pid are accepted by toInteger and their literals' values lie in 0..0xFFFF and 0..0x1FFF, and the private data when present is an even number of hexadecimal digits; the fields are those values and the decoded private data, with no data when there is no third part |
| CADescriptor.ParseCommandLineNoData | src/libtsduck/tsCADescriptor.h:87 | without a third part there is no private data |
| CADescriptor.CommandLineRoundTrip | src/libtsduck/tsCADescriptor.h:86-89 | the command-line text of any fields with a 13-bit PID (decimal casid and pid, hexadecimal private data) parses back to those fields |
| CADescriptor.ReadDecimal | src/libtsduck/tsCADescriptor.h:88 | the decimal text of a value within range reads back as that field |
| CADescriptor.ReadDigits | src/libtsduck/tsCADescriptor.h:88 | a run of decimal digits, or hexadecimal ones after 0x, reads as its value when within range and is rejected otherwise |
| CADescriptor.PiecesThree | src/libtsduck/tsCADescriptor.h:86-87 | three parts without '/' joined by '/' split back into those parts |
| CADescriptor.ParseCommandLineHexa | src/libtsduck/tsCADescriptor.h:88 | `0x6a01/0x50` gives CA_system_id 0x6a01, CA_PID 0x50 and no private data |
| CADescriptor.ParseCommandLineNoPrefix | src/libtsduck/tsCADescriptor.h:88 | `6a01/0x50` is rejected: without 0x the casid is read as decimal |
| CADescriptor.ParseCommandLineData | src/libtsduck/tsCADescriptor.h:89 | `1/1/deadbeef` gives the private data de ad be ef |
| CADescriptor.ParseCommandLineBadData | src/libtsduck/tsCADescriptor.h:89 | `1/1/xyz` is rejected: the private data is not hexadecimal |
| CADescriptor.ParseCommandLinePidRange | src/libtsduck/tsCADescriptor.h:88 | `1/99999` is rejected: the PID is beyond 13 bits |
| CADescriptor.ParseCommandLineCasNoWrap | src/libtsduck/tsCADescriptor.h:88 | `0x100000001/1` is rejected, although its casid wraps to 1 in 32 bits |
| CADescriptor.ParseCommandLinePidNoWrap | src/libtsduck/tsCADescriptor.h:88 | `1/0x100000051` is rejected, although its PID wraps to 0x51 in 32 bits |
| CADescriptor.CADescriptor.constructor | src/libtsduck/tsCADescriptor.h:59-64 | the fields are the arguments (0 and PID_NULL by default), with no private data; the object is valid when the PID fits 13 bits, a modelling choice of its own since the header states no such check |
| CADescriptor.CADescriptor.FromDescriptor | src/libtsduck/tsCADescriptor.h:66-71 | valid if and only if the tag is 0x09 and the payload decodes; then the fields are the decoded ones, otherwise the defaults |
| CADescriptor.CADescriptor.Serialize | src/libtsduck/tsCADescriptor.h:106 | a descriptor is produced if and only if the object is valid and fits 255 bytes; it has tag 0x09 and decodes back to the fields, with the PID reduced to 13 bits |
| CADescriptor.CADescriptor.Deserialize | src/libtsduck/tsCADescriptor.h:107 | valid if and only if the tag is 0x09 and the payload has 4 bytes; then the fields are the decoded ones, otherwise the defaults |
| CADescriptor.CADescriptor.FromCommandLine | src/libtsduck/tsCADescriptor.h:85-93 | true if and only if the value parses; then the object is valid with the parsed fields; otherwise it is unchanged |
| CADescriptor.CommandLineDescriptorIs | src/libtsduck/tsCADescriptor.h:95-103 | a value gives a descriptor if and only if it parses and fits; that descriptor has tag 0x09 and decodes to the parsed fields |
| CADescriptor.DecodeValue | src/libtsduck/tsCADescriptor.h:95-103 | parsing then serializing a fresh descriptor gives the reference descriptor of the value |
| CADescriptor.SerializeParsed | src/libtsduck/tsCADescriptor.h:95-103 | a descriptor filled from a value serializes to the reference descriptor of that value |
| CADescriptor.AddedStep | src/libtsduck/tsCADescriptor.h:97 | one more value appends its descriptor, if any |
| CADescriptor.AddedAll | src/libtsduck/tsCADescriptor.h:100 | all values are added if and only if each of them gives a descriptor, and then the k-th added descriptor is the k-th value's |
| CADescriptor.AddedWellFormed | src/libtsduck/tsCADescriptor.h:97 | every added descriptor is a CA_descriptor of 4 to 255 payload bytes |
| CADescriptor.DescriptorList.Add | src/libtsduck/tsCADescriptor.h:97 | a descriptor is appended at the end of the list |
| CADescriptor.AddFromCommandLine | src/libtsduck/tsCADescriptor.h:95-103 | the list gains the descriptors of the valid values, in order; the result is true if and only if every value gave a descriptor |

## Left out

- Save, Load and LoadAppend (lines 331-402 of the template header): they are file input and output.
- Append(container, argc, argv) (lines 550-558): it decodes C strings from UTF-8, and UTF-8 decoding is not part of this model.
- containSimilar and findSimilar (lines 300-324): they depend on `UString::similar`, which is not part of this model.
- Percentage (lines 703-719): it formats through `UString::Format`, which is not part of this model. Its early returns "?" and "0.00%" are not modelled either.
- DisplayDescriptor, buildXML, fromXML and CADescriptorPtr (tsCADescriptor.h lines 83, 108-109, 115): these are display, XML and a thread-safe pointer.
- The DVBCharset and Report parameters: the CA_descriptor carries no text, and error messages are not modelled.
- The descriptor tag registry, MSVC pragmas and allocators: they have no observable behaviour here.
- UString characters are Dafny `char` values. UTF-16 surrogate pairs are not distinguished.
- `IsSpace`, `ToDigit` and `UString::trim` live outside the template file. They are given simple explicit definitions: ASCII white space, and the digits 0-9, a-f and A-F.
- UStringAssign.UString.AssignVector and UStringAssign.UString.AssignArray: the model takes CHARTYPE to be 16 bits wide. The branch where sizeof(CHARTYPE) differs from sizeof(UChar) (lines 49 and 72), which leaves the string unchanged, is not modelled.
- IntTypes.IntType.Wrap: the model adopts two's-complement wrap-around for every INT. C++ guarantees it only for unsigned types. For a signed 32- or 64-bit INT, the overflow of `value * base + digit` (line 475), of `value = -value` (line 486) and of `ivalue = -value` at the minimum (line 595) is undefined behaviour. For 8- and 16-bit types the arithmetic is done in `int` and converted back, which wraps in practice; C++20 guarantees this. So the model's results on those overflowing inputs are not promised by the source; an example is toInteger<int>("2147483648") giving -2147483648.
- UStringInteger.ToInteger: INT is an integral type of 8, 16, 32 or 64 bits. The `!limits::is_integer` early return cannot be reached for such a type. The `bool` and character types are not modelled as INT.
- UStringFormat.Hexa: `value >>= 4` on a negative signed value is modelled as an arithmetic shift, that is, floor division by 16.
- UStringFormat.Decimal: this is the corrected formatting, which takes the magnitude of the value. The code as written is the function DecimalAsWritten (see Findings).
- UStringLines.SplitLines: this is the corrected method. It adds the margin to the last line only when that line is not the first. The code as written is the function SplitLinesAsWritten (see Findings).
- UStringLines.SplitLinesForcedWidth: the width bound is proved only with forceSplit. Without it, the source lets a word longer than the width run past it.
- FormatRoundTrip.DecimalRoundTrip: this needs a white-space pad character whenever padding actually happens, and a separator that toInteger skips. Any other padding is rejected by toInteger.
- CADescriptor.CADescriptor.Serialize: a payload longer than 255 bytes gives no descriptor. How the C++ code reports that case is not part of this model.

## Findings

| source | as written | input that shows it | evidently intended | confidence | as-written member | corrected member |
|---|---|---|---|---|---|---|
| src/libtsduck/tsUStringTemplate.h:595-613 | `ivalue = -value` is computed in INT, so the minimum of a signed type stays negative; the truncating `ivalue % 10` then yields negative digits | Decimal<int8_t>(-128) gives "-/.(" | "-128", the sign followed by the magnitude's digits | not executed | UStringFormat.DecimalAsWrittenInt8 | UStringFormat.Decimal |
| src/libtsduck/tsUStringTemplate.h:270-273 | the rest of the string is always pushed with nextMargin in front, even when no cut happened and it is the first line | splitLines("abcde", 4, "", " ", false) gives [" abcde"] | ["abcde"]: line 232 says the first line carries no margin | not executed | UStringLines.SplitLinesAsWrittenExample | UStringLines.SplitLines |
