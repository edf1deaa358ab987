# Verification model of the JSON engine and the checksums

This project models two parts of the Livox SDK in Dafny and proves what they are for.

**The JSON engine** (RapidJSON, which reads the configuration file). A text is a sequence of bytes
with a virtual NUL at its end. The project specifies each component as a function, models its code in
its own form (classes with streams, byte stacks, level stacks, chunk lists and loops), proves that the
code computes the specification, and then proves properties of the specifications:

- `Grammar`, `StringSyntax`, `NumberSyntax` specify the recursive reader and `Machine` the pushdown
  reader; `Reader` holds both as code. `Equivalence` proves the two alike, `TokenByToken` does so for
  the reader that is called once per token, and `JsonGrammar`, `TokenGrammar` and `TextValue` prove
  that what is accepted is the grammar of RFC 8259, with comments and trailing commas where the flags admit
  them, and that what is built is the value denoted. The trees of that grammar are in `JsonText`, which
  takes its characters, escapes and digits from the standard and not from the reader. `TokenErrors` says
  what the errors of strings and numbers report, and `NumberRange` which numerals are refused for their
  exponent.
- `Insitu` is the string decoder that writes over its own input; it is proved to be the buffered one, and
  `InsituDocument` runs it over all the strings of a document.
- `WriterText` specifies `Writer` and `PrettyWriter`, `Writer` is their code, and `RoundTrip` and
  `StringRoundTrip` prove that reading undoes printing. `WriterRuns` covers arbitrary sequences of
  handler calls, and `Layout` describes what is printed line by line.
- `Document`, `DocumentParse` and `Dom` are the handlers that rebuild a document; `Equality`
  and `Permutation` are the operator `==` and what it decides, `Members` the member operations,
  `Hasher` the schema hash, and `HasherSensitivity` what that hash does not forget.
- `PointerText` and `PointerParser` are the syntax of JSON Pointers, which `PointerGrammar`, `PointerErrors`
  and `PointerFragment` compare with RFC 6901; `PointerResolve` and `PointerTarget` are their effect on a
  document, and `PointerEffect` tells it container by container.
- `Allocator` is the memory pool, `FileStream` the buffered file, `Utf8` and `Utf16` the encodings,
  and `SchemaPath` the document path of the schema validator.

**The FastCRC software checks.** `CrcSpec` defines a check by bit-at-a-time division and the library's
tables by their recurrence; the arrays of `FastCRC_tables.h` are the constants these evaluate to. Words
are sequences of bits, least significant first, and a table or message is read as a little-endian
machine reads it. `CrcTheory` and `CrcWords` prove the table steps to be division on the register as
the code holds it, `FastCrc` holds the loops, `CrcConsequences` draws conclusions, and
`CrcPieces` runs every check over a message that arrives in pieces. `CrcNumbers` restates the checks over
32-bit machine words, and `CrcValues` evaluates them to the values the library documents.

Where the source changes things step by step, so does the model: the loops of the modelled functions are
loops here, with their invariants. Each class method's contract names a specification function, and the
lemmas below say what that function means.

## Where the code and its comments differ

- The note on the operator `==` says that comparing an object with duplicate names is always false. That
  holds when only the right operand has duplicates. With duplicates on the left the operator can be true
  (`Equality.DuplicatesBreakSymmetry`), and then, the right operand having none, it is false the other way
  round: `Equality.SymmetricIff` makes that an equivalence.
- The schema hash is meant to give equal values equal codes. It does so for every permutation of members
  (`Hasher.PermutedHasEqualCode`). It does not for everything the operator `==` finds equal: not with duplicate
  names on the left (`Hasher.DuplicatesMissed`) and not for a negative integer and the unsigned one with its
  pattern (`Hasher.HugeMissed`); without these `Hasher.EqualHasEqualCode` holds.
- `IterativeParseNext` does not look at the error of a comment that is cut short. Behind the root it then
  reports success (`TokenByToken.CutCommentOverlooked`); elsewhere it may make a transition with the error set.
- The in-place decoder is given a buffer that ends with the NUL, and with the encoding check on it can leave it:
  the validator takes all the bytes a lead byte announces before it looks at the result. The text `"` followed
  by 0xF0 is one (`Insitu.CutSequenceLeaves`). It happens exactly when the string is rejected as
  `StringInvalidEncoding` at an offset `o` and `o` plus the length announced there exceeds the buffer: that is
  the negation of `Insitu.Stays`, and `Insitu.InsituReader.ParseString` shows the read position get there.
  It cannot happen where decoding succeeds, nor where `Insitu.Room` holds, which a caller can check first
  (`Insitu.RoomStays`), nor in valid UTF-8 (`Insitu.ValidTextHasRoom`).
- The comment beside `mcrf4xx` gives the initial value 0xFFFF and the value 0x6F91 for the nine ASCII digits,
  but the code starts from 0 and returns 0x2189 (`CrcValues.Mcrf4xxValue`); the documented value would need
  the initial value of the comment (`CrcValues.Mcrf4xxFromOnesValue`).
- The hash is said to be FNV-1a, but it starts from the offset basis with its halves exchanged
  (`HasherSensitivity.OffsetHalves`).
- RFC 6901 reads a fragment by percent-decoding it first, so that an encoded slash separates tokens. The parser
  takes it for a character of the name; `PointerFragment.FragmentMeansDecoded` shows that to be the only
  difference in what is accepted. It accepts fewer fragments: only unreserved characters may stand unencoded.
- A positive exponent beyond 308 and the counted fraction digits is refused as too big. That is right exactly
  when some digit is not zero (`NumberRange.RefusedIsHuge`); `0e309` is refused too (`NumberRange.ZeroRefused`).
- The index conversion of pointers means to detect overflow by `m < n`; the test misses some numerals
  (`PointerText.OverflowMissed`), and `PointerText.IndexIff` says exactly which indices are right.
- Equality of numbers compares the stored 64-bit patterns, so a negative integer equals the unsigned one
  with the same pattern (`Equality.NumbersEqual`, `Equality.NegativeEqualsHuge`).
- The two readers differ in the reported code when the first token is stray, and the token-by-token reader
  differs on a text of white space only; `Equivalence.ReadersAgree` and `TokenByToken.CallsAgree` give the
  exact conditions.

## Model

| member | source | states |
|---|---|---|
| `Equivalence.ReadersAgree` | src/Livox-SDK2/3rdparty/rapidjson/reader.h:2400-2433 | for every text and all flags, the pushdown reader and the recursive reader end alike (events sent, position, error code, offset) if and only if the first token is not a stray `]`, `}`, `,` or `:`; on a stray both fail at the same place with no events, one with `ValueInvalid`, the other with `DocumentEmpty` |
| `Equivalence.SimulateValue` | src/Livox-SDK2/3rdparty/rapidjson/reader.h:1871-1896 | wherever the pushdown machine may take a value, running it from there is parsing one value recursively and resuming on the stack below, on success and on every kind of failure |
| `Equivalence.SimulateArray` | src/Livox-SDK2/3rdparty/rapidjson/reader.h:868-913 | running the machine from `[` is parsing the array recursively and resuming in the enclosing frame, with the counts agreeing |
| `Equivalence.SimulateObject` | src/Livox-SDK2/3rdparty/rapidjson/reader.h:797-866 | running the machine from `{` is parsing the object recursively and resuming in the enclosing frame |
| `Equivalence.SimulateMembers` | src/Livox-SDK2/3rdparty/rapidjson/reader.h:814-865 | the machine between members is the recursive member loop, for any number of members already read |
| `TokenByToken.CallsAgree` | src/Livox-SDK2/3rdparty/rapidjson/reader.h:675-735 | under every flag setting: when the calls of `IterativeParseNext` end without overlooking the error of a cut comment, they end as the one-call reader does if and only if the text is not only white space and comments (then both fail at the same offset with different codes); when they overlook one, the one-call reader fails with it at that offset, after the same events; they overlook none when no comment is cut short anywhere in the text, so never with comments off |
| `TokenByToken.CallsRun` | src/Livox-SDK2/3rdparty/rapidjson/reader.h:675-735 | from any configuration after the first call, the remaining calls carry on exactly as the one-call loop, up to a cut comment they overlook |
| `TokenByToken.CutCommentOverlooked` | src/Livox-SDK2/3rdparty/rapidjson/reader.h:684-709 | the difference is real: an empty array and a cut block comment are a success for the last call and an error for the one-call reader |
| `Machine.Transit` | src/Livox-SDK2/3rdparty/rapidjson/reader.h:2192-2346 | a transition that succeeds moves forward and keeps the frames on the stack consistent with the state, so that every pop finds the frame it expects |
| `JsonGrammar.AcceptsTheGrammar` | src/Livox-SDK2/3rdparty/rapidjson/reader.h:614-646 | under every flag setting, a text that ends at its NUL is accepted if and only if it is a value of RFC 8259 between gaps, with commas trailing where that flag is on, and then exactly the events of that value are sent; when reading stops after the root, the text up to there is |
| `JsonGrammar.DocumentSound` | src/Livox-SDK2/3rdparty/rapidjson/reader.h:614-646 | every accepted text has a syntax tree that spells what was consumed and whose events were sent; nothing follows the value when reading stops there |
| `JsonGrammar.DocumentComplete` | src/Livox-SDK2/3rdparty/rapidjson/reader.h:614-646 | every tree of the grammar, with any gaps the flags admit, is accepted and consumed to its end |
| `JsonGrammar.RootComplete` | src/Livox-SDK2/3rdparty/rapidjson/reader.h:633-642 | when reading stops after the root, whatever follows it, unless it continues the value, is not looked at |
| `JsonGrammar.SkipSound` | src/Livox-SDK2/3rdparty/rapidjson/reader.h:769-795 | what is skipped between tokens is white space, and with that flag block and line comments, and only the last comment of a text may lack its line break |
| `JsonGrammar.GapSkipped` | src/Livox-SDK2/3rdparty/rapidjson/reader.h:769-795 | every such gap is skipped whole, wherever it stands |
| `JsonGrammar.ValueSound` | src/Livox-SDK2/3rdparty/rapidjson/reader.h:1871-1896 | what `ParseValue` consumed is the spelling of a tree and it sent that tree's events |
| `JsonGrammar.ValueComplete` | src/Livox-SDK2/3rdparty/rapidjson/reader.h:1871-1896 | a value of the grammar anywhere in a text, not continued as a longer token, is read whole and sends its events |
| `TokenGrammar.StringSound` | src/Livox-SDK2/3rdparty/rapidjson/reader.h:1056-1129 | an accepted string consists of the units of RFC 8259 section 7, and decodes to the bytes those units denote by the escapes and hexadecimal digits written out there |
| `TokenGrammar.StringComplete` | src/Livox-SDK2/3rdparty/rapidjson/reader.h:1056-1129 | every string of such units is accepted whole and decodes to the bytes they denote |
| `TokenGrammar.NumeralSound` | src/Livox-SDK2/3rdparty/rapidjson/reader.h:1583-1868 | an accepted number is a numeral of RFC 8259 section 6, in range, and its event is the narrowest integer kind its sign allows, or a double |
| `TokenGrammar.NumeralComplete` | src/Livox-SDK2/3rdparty/rapidjson/reader.h:1583-1868 | every numeral in range that the next character does not continue is read whole, with its event |
| `TokenGrammar.Hex4Iff` | src/Livox-SDK2/3rdparty/rapidjson/reader.h:966-987 | four characters are a hexadecimal number if and only if each is a digit of either case, and then the number is theirs |
| `TokenErrors.StringErrors` | src/Livox-SDK2/3rdparty/rapidjson/reader.h:1056-1129 | a refused string consists of units of RFC 8259 up to the offset reported, and has there the fault that the error code names |
| `TokenErrors.FaultIsOne` | src/Livox-SDK2/3rdparty/rapidjson/reader.h:1056-1129 | at one place of a text no two of these codes name a fault, and no closing quotation mark stands there |
| `TokenErrors.NumberErrors` | src/Livox-SDK2/3rdparty/rapidjson/reader.h:1583-1868 | a refused number has, where the offset says, the fault that the code names: no digit, no digit behind a point or an exponent mark, or a numeral that is out of range |
| `TokenGrammar.EscapesAgree` | src/Livox-SDK2/3rdparty/rapidjson/reader.h:1060-1085 | the table of single escapes is that of section 7 of RFC 8259, entry by entry |
| `TokenGrammar.KindsAgree` | src/Livox-SDK2/3rdparty/rapidjson/reader.h:1843-1863 | an integer is sent in the narrowest of the four kinds that its sign allows and its value fits |
| `JsonText.Vocabulary` | src/Livox-SDK2/3rdparty/rapidjson/reader.h:1871-1896 | the structural characters, literals, digits and exponent marks are the ASCII characters of RFC 8259 |
| `NumberRange.RefusedIsHuge` | src/Livox-SDK2/3rdparty/rapidjson/reader.h:1789-1796 | a numeral refused for its exponent has a value of at least 1e309, which no double reaches, if and only if it has a digit other than zero |
| `NumberRange.ZeroRefused` | src/Livox-SDK2/3rdparty/rapidjson/reader.h:1789-1796 | zero with such an exponent is refused too |
| `NumberRange.CountedExactly` | src/Livox-SDK2/3rdparty/rapidjson/reader.h:1710-1752 | the fraction digits that count against an exponent are all those until the significand passes 2^53 - 1, and from there on as many as make seventeen significant ones |
| `TextValue.DocumentDenotes` | src/Livox-SDK2/3rdparty/rapidjson/document.h:2737-2750 | an accepted text denotes a value, and running the events that were sent on the document handlers builds exactly that value |
| `NumberSyntax.DecimalMonotone` | src/Livox-SDK2/3rdparty/rapidjson/reader.h:1609-1701 | a prefix of a digit string has a value no larger than the whole, so leaving an accumulator early never loses the decision |
| `NumberSyntax.ManyDigits` | src/Livox-SDK2/3rdparty/rapidjson/reader.h:1703-1750 | a value that seventeen digits cannot write has at least eighteen, so the 17-significant-digit cut agrees with the accumulator's |
| `Reader.GenericReader.Accumulate` | src/Livox-SDK2/3rdparty/rapidjson/reader.h:1609-1701 | the digit loop stops exactly before the digit that would pass the limit, and holds the exact value of the digits taken: the accumulator never wraps |
| `Reader.GenericReader.ParseInteger` | src/Livox-SDK2/3rdparty/rapidjson/reader.h:1601-1708 | all digits are consumed; the 64-bit accumulator is used exactly beyond the 32-bit range, a double exactly outside [-2^63, 2^64), and otherwise the value is exact |
| `Reader.GenericReader.ParseFraction` | src/Livox-SDK2/3rdparty/rapidjson/reader.h:1710-1752 | all fraction digits are consumed and the exponent is lowered by the number of digits that were significant |
| `Reader.GenericReader.ParseNegativeExponent` | src/Livox-SDK2/3rdparty/rapidjson/reader.h:1768-1788 | with fewer than 10^8 fraction digits neither `exp` nor `exp + expFrac` leaves the 32-bit range, however long the exponent |
| `Reader.GenericReader.ParsePositiveExponent` | src/Livox-SDK2/3rdparty/rapidjson/reader.h:1789-1796 | the exponent is refused exactly when its value is over 308 plus the fraction digits, and is otherwise exact |
| `Reader.GenericReader.ParseExponent` | src/Livox-SDK2/3rdparty/rapidjson/reader.h:1754-1801 | sign and digits are scanned as specified; `exp` and `exp + expFrac` stay in the 32-bit range, also when the exponent is refused |
| `Reader.GenericReader.ParseNumber` | src/Livox-SDK2/3rdparty/rapidjson/reader.h:1583-1868 | the event, position or error of the number specification |
| `Reader.GenericReader.SendNumber` | src/Livox-SDK2/3rdparty/rapidjson/reader.h:1834-1864 | the event is the narrowest integer that holds the value with its sign, or the double with its numeral |
| `Reader.GenericReader.ParseHex4` | src/Livox-SDK2/3rdparty/rapidjson/reader.h:966-987 | the four-digit value, or the error at the offset of the escape |
| `Reader.GenericReader.ParseUnicodeEscape` | src/Livox-SDK2/3rdparty/rapidjson/reader.h:1089-1106 | a single escape or a whole surrogate pair is one code point; a lone or mismatched surrogate is the error the specification gives |
| `Reader.GenericReader.ParseStringToStream` | src/Livox-SDK2/3rdparty/rapidjson/reader.h:1056-1129 | the stack gains exactly the decoded bytes and a NUL, and the length counts them; or the specified error |
| `Reader.GenericReader.ParseString` | src/Livox-SDK2/3rdparty/rapidjson/reader.h:1020-1052 | one `String` or `Key` event with the decoded bytes; the byte stack is as before |
| `Reader.GenericReader.SkipWhitespaceAndComments` | src/Livox-SDK2/3rdparty/rapidjson/reader.h:769-794 | the stream stops at the first character that is neither white space nor in a comment, or the comment error is set |
| `Reader.GenericReader.ParseObject` | src/Livox-SDK2/3rdparty/rapidjson/reader.h:797-866 | the events, position or error of the object production, with the stack restored |
| `Reader.GenericReader.ParseArray` | src/Livox-SDK2/3rdparty/rapidjson/reader.h:868-913 | the events, position or error of the array production, with the stack restored |
| `Reader.GenericReader.ParseValue` | src/Livox-SDK2/3rdparty/rapidjson/reader.h:1871-1896 | the events, position or error of the value production, with the stack restored |
| `Reader.GenericReader.Parse` | src/Livox-SDK2/3rdparty/rapidjson/reader.h:614-646 | the whole outcome of the recursive reader: events sent, position, error code and offset |
| `Reader.GenericReader.Transit` | src/Livox-SDK2/3rdparty/rapidjson/reader.h:2192-2346 | one transition of the machine on the byte stack: two items per open frame are pushed and popped so that the stack always spells the frames |
| `Reader.GenericReader.HandleError` | src/Livox-SDK2/3rdparty/rapidjson/reader.h:2352-2388 | the first error is kept; otherwise the code is the one for the state the machine stopped in |
| `Reader.GenericReader.IterativeParse` | src/Livox-SDK2/3rdparty/rapidjson/reader.h:2400-2433 | the whole outcome of the pushdown machine: events sent, position, error code and offset |
| `Reader.GenericReader.IterativeParseNext` | src/Livox-SDK2/3rdparty/rapidjson/reader.h:675-729 | one call makes exactly the transitions up to the next token that is not a delimiter, keeps the stack consistent for the next call, and reports completion, the error, or success with the error of a cut comment behind the root still set |
| `Insitu.TurnShrinks` | src/Livox-SDK2/3rdparty/rapidjson/reader.h:1072-1128 | no turn of the decoder puts more bytes than it takes, whatever the escape |
| `Insitu.InsituStringStream.Put` | src/Livox-SDK2/3rdparty/rapidjson/stream.h:211-214 | requires the write position to be behind the read position, and changes only the byte at the write position |
| `Insitu.InsituReader.ParseEscape` | src/Livox-SDK2/3rdparty/rapidjson/reader.h:1079-1108 | the bytes of one escape are written behind the read position; everything not yet read still holds the original text, also after an error |
| `Insitu.InsituReader.ParseTurn` | src/Livox-SDK2/3rdparty/rapidjson/reader.h:1072-1128 | one turn over the shared buffer does what the turn of the buffered decoder does, writes between the two positions only, and on a bad sequence has taken all the bytes its lead announces |
| `Insitu.InsituReader.ParseStringToStream` | src/Livox-SDK2/3rdparty/rapidjson/reader.h:1056-1129 | for every text whose decoding stays in the buffer, checked or not: the same bytes, length, cursor and errors as the buffered decoder, a NUL behind them, nothing changed before the string or from the read position on, also on errors; where an invalid sequence ends it, the read position is behind all the bytes announced |
| `Insitu.InsituReader.ParseString` | src/Livox-SDK2/3rdparty/rapidjson/reader.h:1020-1041 | the same for the string behind a quotation mark: the decoded string stands just behind its opening quote, followed by a NUL, and no byte outside the part that was read has changed |
| `Insitu.RoomStays` | src/Livox-SDK2/3rdparty/rapidjson/reader.h:1121-1126 | decoding stays in the buffer, wherever it begins, when no lead byte of the text announces more bytes than the buffer has |
| `Insitu.ValidTextHasRoom` | src/Livox-SDK2/3rdparty/rapidjson/encodings.h:213-266 | valid UTF-8 announces nothing beyond its own end, so a buffer that ends with the NUL is enough |
| `Insitu.CutSequenceLeaves` | src/Livox-SDK2/3rdparty/rapidjson/encodings.h:213-266 | a lead byte of four at the end of the text makes the validator leave a buffer that ends with the NUL |
| `InsituDocument.DocumentTracks` | src/Livox-SDK2/3rdparty/rapidjson/reader.h:614-646 | for every text and all flags, accepted or not, the strings and names among the events are those of strings of the text that follow one another without overlap |
| `InsituDocument.DecodeStrings` | src/Livox-SDK2/3rdparty/rapidjson/reader.h:1020-1052 | decoding such strings one after the other leaves each of them, with its NUL, where it was decoded, and the rest of the buffer as it was |
| `InsituDocument.DecodeDocument` | src/Livox-SDK2/3rdparty/rapidjson/reader.h:1020-1052 | so in the end every string and name that the reader sends stands in the buffer behind its own quotation mark |
| `Utf8.ValidateIsGrammar` | src/Livox-SDK2/3rdparty/rapidjson/encodings.h:213-298 | the table-driven validator takes exactly the sequences of section 4 of RFC 3629, each at its own length |
| `Utf8.EncodeWellFormed` | src/Livox-SDK2/3rdparty/rapidjson/encodings.h:107-125 | the encoding of every scalar value is a sequence of that grammar |
| `Utf8.DecodeEncode` | src/Livox-SDK2/3rdparty/rapidjson/encodings.h:147-211 | wherever the encoding of a scalar value stands, the decoder and the validator take exactly it, and the decoder stores the value |
| `Utf8.EncodeDecode` | src/Livox-SDK2/3rdparty/rapidjson/encodings.h:147-211 | whatever the decoder accepts is the encoding of the scalar value it stores |
| `Utf8.SortsAlike` | src/Livox-SDK2/3rdparty/rapidjson/encodings.h:107-125 | encoded texts sort byte by byte as their code points do, which leaves one assignment of sequences to scalar values |
| `Utf16.DecodeEncode` | src/Livox-SDK2/3rdparty/rapidjson/encodings.h:354-402 | UTF-16 units of a scalar value decode to it |
| `Utf16.EncodeDecode` | src/Livox-SDK2/3rdparty/rapidjson/encodings.h:354-402 | whatever UTF-16 decodes is the encoding of what it decodes to |
| `Utf16.PairFormula` | src/Livox-SDK2/3rdparty/rapidjson/encodings.h:354-369 | a surrogate pair holds the upper and the lower ten bits of the value less 0x10000 (section 2.1 of RFC 2781) |
| `Utf16.FromUtf8Iff` | src/Livox-SDK2/3rdparty/rapidjson/encodings.h:749-759 | transcoding from UTF-8 to UTF-16 succeeds if and only if the text is valid UTF-8 |
| `Utf16.TranscodeRoundTrip` | src/Livox-SDK2/3rdparty/rapidjson/encodings.h:749-759 | UTF-8 to UTF-16 and back restores every valid text byte for byte, and every other text is refused |
| `StringRoundTrip.ValidGreedy` | src/Livox-SDK2/3rdparty/rapidjson/encodings.h:213-266 | greedy splitting decides validity: a text is valid if and only if the validator takes a sequence and the rest is valid |
| `StringRoundTrip.EscapedIff` | src/Livox-SDK2/3rdparty/rapidjson/writer.h:437-520 | writing a string succeeds if and only if it is valid UTF-8, or neither an ASCII target nor checking asks for that |
| `StringRoundTrip.CheckedSame` | src/Livox-SDK2/3rdparty/rapidjson/writer.h:437-520 | checking the encoding does not change what is written |
| `StringRoundTrip.QuotedRead` | src/Livox-SDK2/3rdparty/rapidjson/writer.h:437-520 | whatever string was written is read back byte for byte, by checking and unchecking readers |
| `StringRoundTrip.AsciiRoundTrip` | src/Livox-SDK2/3rdparty/rapidjson/writer.h:467-494 | an ASCII target accepts exactly valid UTF-8, writes bytes below 0x80 only, and reading restores the bytes through escapes and surrogate pairs |
| `StringRoundTrip.EscapedAscii` | src/Livox-SDK2/3rdparty/rapidjson/writer.h:467-494 | with an ASCII target no byte of 0x80 or more is ever written |
| `WriterText.WritesValue` | src/Livox-SDK2/3rdparty/rapidjson/document.h:2284-2331 | from any open level, the handler calls of a value add its printed text with the separators due there, and fail if and only if some string in it cannot be written |
| `Layout.ArrayLayout` | src/Livox-SDK2/3rdparty/rapidjson/prettywriter.h:163-311 | a printed array is its elements between brackets: apart by commas, by commas and spaces on a single line, or each on a line of its own one level deeper than the brackets |
| `Layout.ObjectLayout` | src/Livox-SDK2/3rdparty/rapidjson/prettywriter.h:163-311 | a printed object is its members likewise, each a name, a colon, a space when pretty, and a value |
| `Layout.EscapesChosen` | src/Livox-SDK2/3rdparty/rapidjson/writer.h:437-520 | exactly quotation mark, reverse solidus and control characters are escaped: with the two-character escape where RFC 8259 has one, and with four capital digits where it has none |
| `RoundTrip.PrintThenParse` | src/Livox-SDK2/3rdparty/rapidjson/writer.h:255-296 | every value without doubles, in the compact style and in every indented style: the calls of `Accept` succeed exactly when its strings can be written, and the text is accepted to its end by both readers, replays the same events up to the integer kind, and rebuilds the value |
| `RoundTrip.PrintableIff` | src/Livox-SDK2/3rdparty/rapidjson/writer.h:437-520 | a whole value can be written if and only if its strings are valid UTF-8, or neither an ASCII target nor checking asks for that |
| `RoundTrip.PrintedTree` | src/Livox-SDK2/3rdparty/rapidjson/prettywriter.h:163-311 | the printed text of a value is the spelling of a syntax tree of RFC 8259 whose events are those of the value |
| `RoundTrip.TextReads` | src/Livox-SDK2/3rdparty/rapidjson/writer.h:255-296 | printed text is never a stray token, and is read to its end |
| `RoundTrip.BuildAsRead` | src/Livox-SDK2/3rdparty/rapidjson/document.h:2926-3000 | the document built does not depend on which integer event carried a number |
| `WriterRuns.RunShows` | src/Livox-SDK2/3rdparty/rapidjson/writer.h:255-296 | after any sequence of handler calls that succeed, in any order, the output is the text of the values completed and opened so far |
| `WriterRuns.CompleteMeansValue` | src/Livox-SDK2/3rdparty/rapidjson/writer.h:165-165 | `IsComplete` after any successful run means that the output is the text of one value, which both print and read confirm; a checking reader needs a checking or ASCII writer, or valid strings |
| `Writer.Writer.IsComplete` | src/Livox-SDK2/3rdparty/rapidjson/writer.h:165-165 | it holds exactly when a root was begun and no level is open |
| `Writer.Writer.PutCodepoint` | src/Livox-SDK2/3rdparty/rapidjson/writer.h:467-494 | a code point is put as one escape or as the two escapes of its surrogate pair |
| `Writer.Writer.WriteString` | src/Livox-SDK2/3rdparty/rapidjson/writer.h:437-520 | the output gains the quoted, escaped text exactly when there is one |
| `Writer.Writer.Prefix` | src/Livox-SDK2/3rdparty/rapidjson/writer.h:560-579 | the separator due at this level is put and the value counted |
| `Writer.Writer.PrettyPrefix` | src/Livox-SDK2/3rdparty/rapidjson/prettywriter.h:263-303 | separator, line break and indentation due at this level, under either array format, are put and the value counted |
| `Writer.Writer.WriteIndent` | src/Livox-SDK2/3rdparty/rapidjson/prettywriter.h:305-311 | as many indentation characters as open levels times the indentation |
| `Writer.Writer.String` | src/Livox-SDK2/3rdparty/rapidjson/writer.h:242-248 | the sheet after a string value, or failure exactly when the string cannot be written |
| `Writer.Writer.Key` | src/Livox-SDK2/3rdparty/rapidjson/writer.h:261-261 | the sheet after a name; names and values of one object alternate |
| `Writer.Writer.StartObject` | src/Livox-SDK2/3rdparty/rapidjson/writer.h:255-259 | the sheet after the bracket, with a new level on the stack |
| `Writer.Writer.EndObject` | src/Livox-SDK2/3rdparty/rapidjson/prettywriter.h:180-205 | the level is popped, and the closing bracket put on its own line when the style asks for it and the object was not empty |
| `Writer.Writer.EndArray` | src/Livox-SDK2/3rdparty/rapidjson/prettywriter.h:214-234 | the level is popped, and the closing bracket put on its own line when the style asks for it |
| `Writer.Writer.Accept` | src/Livox-SDK2/3rdparty/rapidjson/document.h:2284-2331 | the recursive traversal on this writer leaves exactly the printed text, or fails exactly when a string cannot be written |
| `Document.Rebuilds` | src/Livox-SDK2/3rdparty/rapidjson/document.h:2926-3000 | running the events of any value on the document handlers, from any stack, ends with that value pushed and nothing else changed |
| `Document.PairedUnpaired` | src/Livox-SDK2/3rdparty/rapidjson/document.h:2982-2988 | the values an object pops come in pairs of name and value, and pairing them gives back the members |
| `DocumentParse.ValueBuilds` | src/Livox-SDK2/3rdparty/rapidjson/reader.h:1871-1896 | every value that is read is one more value on the handlers' stack, whatever was below; after a failure the calls made so far are still a legal run |
| `DocumentParse.MembersBuild` | src/Livox-SDK2/3rdparty/rapidjson/reader.h:814-865 | the count that the member loop passes on is twice matched by what it pushed |
| `DocumentParse.ElementsBuild` | src/Livox-SDK2/3rdparty/rapidjson/reader.h:885-912 | the count that the element loop passes on is the number of values it pushed |
| `DocumentParse.OneRoot` | src/Livox-SDK2/3rdparty/rapidjson/reader.h:614-646 | every accepted text leaves exactly one root |
| `Dom.GenericDocument.EndObject` | src/Livox-SDK2/3rdparty/rapidjson/document.h:2982-2988 | the object below the members takes exactly the counted members off the stack |
| `Dom.GenericDocument.EndArray` | src/Livox-SDK2/3rdparty/rapidjson/document.h:2995-3000 | the array below the elements takes exactly the counted elements off the stack |
| `Dom.GenericDocument.ParseStream` | src/Livox-SDK2/3rdparty/rapidjson/document.h:2737-2750 | an accepted text replaces the root by the value its events build; a rejected one leaves the root and reports code and offset; the stack is empty either way |
| `Equality.ConstructorsAgree` | src/Livox-SDK2/3rdparty/rapidjson/document.h:857-899 | whichever of the four constructors stores an integer, the flags are those of the ranges that hold it, and `Accept` then sends the narrowest event |
| `Equality.FindMemberLoop` | src/Livox-SDK2/3rdparty/rapidjson/document.h:1518-1527 | the index of the first member of that name, or the number of members |
| `Equality.Compare` | src/Livox-SDK2/3rdparty/rapidjson/document.h:1109-1147 | the operator with its loops computes the recursive specification |
| `Equality.EqualIff` | src/Livox-SDK2/3rdparty/rapidjson/document.h:1109-1147 | when the left operand has no duplicate names at any depth, the operator decides exactly whether the right one has none either and both mean the same up to member order at every depth |
| `Equality.Equivalence` | src/Livox-SDK2/3rdparty/rapidjson/document.h:1109-1147 | on all values of integers it is transitive, duplicate names or not; without duplicate names on the left it is reflexive and symmetric too, although it searches in one direction only |
| `Equality.SymmetricIff` | src/Livox-SDK2/3rdparty/rapidjson/document.h:1109-1147 | of two operands found equal, the right one without duplicate names, the operator turned around is true if and only if the left one has no duplicate names either |
| `Permutation.EqualIffPermuted` | src/Livox-SDK2/3rdparty/rapidjson/document.h:1109-1147 | for a left operand without duplicate names, and numbers of both from one range of 2^64 integers, the operator is true if and only if the values differ in member order only, at any depth |
| `Equality.AllHit` | src/Livox-SDK2/3rdparty/rapidjson/document.h:1113-1125 | the pigeonhole step: as many distinct names, all found, leave no member of the other side unmatched |
| `Equality.NumbersEqual` | src/Livox-SDK2/3rdparty/rapidjson/document.h:1136-1143 | numbers compare equal exactly when they are one integer or differ by 2^64; so exactly as integers inside the signed 64-bit range |
| `Equality.NegativeEqualsHuge` | src/Livox-SDK2/3rdparty/rapidjson/document.h:1136-1143 | outside that range it fails: -1 equals 2^64 - 1 |
| `Equality.DuplicatesBreakSymmetry` | src/Livox-SDK2/3rdparty/rapidjson/document.h:1101-1125 | with duplicate names on the left the operator can be true one way and false the other |
| `Members.ObjectData.Find` | src/Livox-SDK2/3rdparty/rapidjson/document.h:1518-1527 | the index of the first member of that name in the member array |
| `Members.ObjectData.AddMember` | src/Livox-SDK2/3rdparty/rapidjson/document.h:1560-1575 | the member is appended, also when the array had to be moved to grow |
| `Members.ObjectData.RemoveMember` | src/Livox-SDK2/3rdparty/rapidjson/document.h:1761-1774 | the last member is moved into the gap |
| `Members.ObjectData.EraseMember` | src/Livox-SDK2/3rdparty/rapidjson/document.h:1798-1813 | the members behind the range move up in order |
| `Members.RemoveTakesOut` | src/Livox-SDK2/3rdparty/rapidjson/document.h:1761-1774 | among distinct names, removing takes exactly one name out of the table of members |
| `Members.RemoveEqualsErase` | src/Livox-SDK2/3rdparty/rapidjson/document.h:1761-1813 | the operator finds the results of removing and erasing equal: they differ in order only |
| `Members.AddShows` | src/Livox-SDK2/3rdparty/rapidjson/document.h:1560-1575 | an added member shows in the table if and only if its name was not there already |
| `PointerText.PointerRoundTrip` | src/Livox-SDK2/3rdparty/rapidjson/pointer.h:1013-1179 | for every list of names the string form parses back to them with their indices; the fragment form exists if and only if the names are valid UTF-8, and then parses back too (RFC 6901 sections 3 and 6) |
| `PointerText.FragmentPrintsIff` | src/Livox-SDK2/3rdparty/rapidjson/pointer.h:1151-1179 | a name has a fragment form if and only if it is valid UTF-8 |
| `PointerText.TokenPerSlash` | src/Livox-SDK2/3rdparty/rapidjson/pointer.h:1021-1128 | parsing fills one token for every slash, so the slots counted beforehand are filled exactly |
| `PointerText.IndexIff` | src/Livox-SDK2/3rdparty/rapidjson/pointer.h:1109-1126 | the index of a canonical numeral is its value if and only if the value fits 32 bits |
| `PointerText.OverflowMissed` | src/Livox-SDK2/3rdparty/rapidjson/pointer.h:1117-1118 | the overflow test is not complete: a canonical numeral beyond 32 bits passes with a wrapped index |
| `PointerGrammar.AcceptsTheGrammar` | src/Livox-SDK2/3rdparty/rapidjson/pointer.h:1013-1145 | a text is accepted if and only if the grammar of RFC 6901 spells it, as a string or as a fragment of unreserved and percent-encoded characters, and the tokens are the names it spells with their indices |
| `PointerGrammar.CharComplete` | src/Livox-SDK2/3rdparty/rapidjson/pointer.h:1050-1101 | every character of that grammar, wherever it stands, is taken whole and yields its bytes |
| `PointerGrammar.CharSound` | src/Livox-SDK2/3rdparty/rapidjson/pointer.h:1050-1101 | whatever one turn of the name loop takes is a character of that grammar |
| `PointerGrammar.IndexGrammar` | src/Livox-SDK2/3rdparty/rapidjson/pointer.h:1104-1126 | only `0`, or digits that do not start with a zero, can have an index |
| `PointerErrors.PointerFaults` | src/Livox-SDK2/3rdparty/rapidjson/pointer.h:1013-1145 | a refused pointer is legal up to a character that has the fault the code names, at the offset reported, or does not begin with a slash |
| `PointerFragment.FragmentMeansDecoded` | src/Livox-SDK2/3rdparty/rapidjson/pointer.h:1050-1076 | an accepted fragment means what its percent-decoded text means as a string, if and only if no slash in it is percent-encoded |
| `PointerFragment.DecodingAdds` | src/Livox-SDK2/3rdparty/rapidjson/pointer.h:1053-1071 | percent-decoding a text adds a slash exactly when the text encodes one |
| `PointerParser.PercentDecodeStream.Take` | src/Livox-SDK2/3rdparty/rapidjson/pointer.h:1199-1222 | a whole triplet yields its byte; anything else marks the stream invalid |
| `PointerParser.GenericPointer.CountSlashes` | src/Livox-SDK2/3rdparty/rapidjson/pointer.h:1021-1024 | the number of slashes, which is the number of token slots allocated |
| `PointerParser.GenericPointer.ParseToken` | src/Livox-SDK2/3rdparty/rapidjson/pointer.h:1043-1127 | one token: the name is written to the buffer behind those already there, the buffer used never passes the input consumed, and the slot spells the token |
| `PointerParser.GenericPointer.ParseName` | src/Livox-SDK2/3rdparty/rapidjson/pointer.h:1050-1107 | the decoded name stands in the buffer at the start given, nothing before it changes, and the digits flag says whether it is all digits |
| `PointerParser.GenericPointer.ParseIndex` | src/Livox-SDK2/3rdparty/rapidjson/pointer.h:1109-1126 | the conversion loop computes the specified index |
| `PointerParser.GenericPointer.ParseTokens` | src/Livox-SDK2/3rdparty/rapidjson/pointer.h:1043-1133 | the slots and the buffer spell exactly the tokens of the specification, or the error and offset are the specified ones |
| `PointerParser.GenericPointer.Parse` | src/Livox-SDK2/3rdparty/rapidjson/pointer.h:1013-1142 | after success the slots and the name buffer spell the tokens; after failure both are released and code and offset are set |
| `PointerParser.GenericPointer.Stringify` | src/Livox-SDK2/3rdparty/rapidjson/pointer.h:1151-1179 | from slots and buffer, the string or fragment form of the names, failing exactly when there is none |
| `PointerResolve.CreateFinds` | src/Livox-SDK2/3rdparty/rapidjson/pointer.h:539-585 | `Create` reports that the value existed if and only if `Get` found it, and then changes nothing; otherwise the location holds a null |
| `PointerResolve.GetAfterCreate` | src/Livox-SDK2/3rdparty/rapidjson/pointer.h:539-649 | `Get` finds the created location if and only if no token on the way was `-` applied to an array |
| `PointerResolve.Lens` | src/Livox-SDK2/3rdparty/rapidjson/pointer.h:539-649 | getting after setting yields the value set; setting what was got changes nothing; a second setting overrides the first |
| `PointerResolve.CreateTwice` | src/Livox-SDK2/3rdparty/rapidjson/pointer.h:539-585 | a second `Create` finds what the first made and changes nothing |
| `PointerResolve.SetKeepsBeside` | src/Livox-SDK2/3rdparty/rapidjson/pointer.h:539-585 | whatever pointer resolved beside the way of a `Set`, leaving it at a container whose type is kept, resolves as before to the same value |
| `PointerResolve.EraseTakesOut` | src/Livox-SDK2/3rdparty/rapidjson/pointer.h:914-951 | `Erase` succeeds exactly when `Get` finds something below the root, takes that child out of its container, and otherwise changes nothing |
| `PointerResolve.EraseThenGet` | src/Livox-SDK2/3rdparty/rapidjson/pointer.h:914-951 | an erased member of distinct names, and an erased last element, are gone; behind any other erased element the next one moves up to the same pointer |
| `PointerResolve.NamedParsed` | src/Livox-SDK2/3rdparty/rapidjson/pointer.h:1109-1126 | tokens as the parser makes them always satisfy what the resolution lemmas ask of tokens |
| `PointerEffect.SetInScalar` | src/Livox-SDK2/3rdparty/rapidjson/pointer.h:551-557 | what holds no children becomes an array of nulls and the value when the token is an index, and otherwise an object of that one member |
| `PointerEffect.SetInArray` | src/Livox-SDK2/3rdparty/rapidjson/pointer.h:545-566 | an array takes the value at the index, behind nulls when the index is beyond it, or at its end for `-`; with any other token it becomes an object |
| `PointerEffect.SetInObject` | src/Livox-SDK2/3rdparty/rapidjson/pointer.h:567-578 | an object takes the value in the first member of the name, or in a new last member, index or not |
| `PointerEffect.SetDeep` | src/Livox-SDK2/3rdparty/rapidjson/pointer.h:539-585 | a longer pointer sets, below its first token, what the rest of it makes of the value found there or of a null |
| `PointerEffect.ContainersOnTheWay` | src/Livox-SDK2/3rdparty/rapidjson/pointer.h:545-577 | every location on the way of `Create` is afterwards an array if it was one and the token has an index or is `-`, or if it held no container and the token has an index, and otherwise an object |
| `PointerTarget.Target.Descend` | src/Livox-SDK2/3rdparty/rapidjson/pointer.h:545-577 | one step of `Create`: coercing, padding or appending as specified |
| `PointerTarget.Target.Create` | src/Livox-SDK2/3rdparty/rapidjson/pointer.h:539-585 | the loop leaves the specified document and location, and the location is in the document |
| `PointerTarget.Target.Get` | src/Livox-SDK2/3rdparty/rapidjson/pointer.h:622-649 | the location, or the index of the first token that did not resolve |
| `PointerTarget.Target.Set` | src/Livox-SDK2/3rdparty/rapidjson/pointer.h:781-784 | the document with the value put at the created location |
| `PointerTarget.Target.Erase` | src/Livox-SDK2/3rdparty/rapidjson/pointer.h:914-951 | the specified document and verdict |
| `Allocator.CutSound` | src/Livox-SDK2/3rdparty/rapidjson/allocators.h:208-220 | a block cut from the head chunk is disjoint from every live block, inside its chunk and aligned, and all live blocks stay so |
| `Allocator.GrowSound` | src/Livox-SDK2/3rdparty/rapidjson/allocators.h:234-245 | growing the last block in place keeps all live blocks disjoint and inside |
| `Allocator.LastInHead` | src/Livox-SDK2/3rdparty/rapidjson/allocators.h:234-245 | a live block that ends at the top of the head chunk lies in the head chunk, though older chunks are live too |
| `Allocator.AddSound` | src/Livox-SDK2/3rdparty/rapidjson/allocators.h:268-281 | a chunk apart from the others keeps every live block where it is |
| `Allocator.BlocksAligned` | src/Livox-SDK2/3rdparty/rapidjson/allocators.h:208-220 | with chunks at multiples of eight, every live block is at one |
| `Allocator.SizeWithinCapacity` | src/Livox-SDK2/3rdparty/rapidjson/allocators.h:191-205 | the sum of sizes never exceeds the sum of capacities |
| `Allocator.TotalsGrow` | src/Livox-SDK2/3rdparty/rapidjson/allocators.h:191-281 | a block cut adds its bytes to the total size, a new chunk its capacity to the total capacity, and neither changes the other total |
| `Allocator.FitsIff` | src/Livox-SDK2/3rdparty/rapidjson/allocators.h:211-213 | the head chunk has room exactly when a block at its top ends inside it |
| `Allocator.MemoryPoolAllocator.WithBuffer` | src/Livox-SDK2/3rdparty/rapidjson/allocators.h:153-167 | the user's buffer becomes the only chunk, its header taken off its capacity |
| `Allocator.MemoryPoolAllocator.Malloc` | src/Livox-SDK2/3rdparty/rapidjson/allocators.h:208-220 | null exactly for size zero or when no chunk can be had; otherwise a new block apart from every live one at the top of the head chunk, which is a new chunk exactly when the old had no room |
| `Allocator.MemoryPoolAllocator.AddChunk` | src/Livox-SDK2/3rdparty/rapidjson/allocators.h:268-281 | the new chunk is linked in front, empty; the older chunks are unchanged |
| `Allocator.MemoryPoolAllocator.Grow` | src/Livox-SDK2/3rdparty/rapidjson/allocators.h:234-245 | in-place growth is taken exactly when the block ends at the top of the head chunk and the room suffices, and changes nothing otherwise |
| `Allocator.MemoryPoolAllocator.Enlarge` | src/Livox-SDK2/3rdparty/rapidjson/allocators.h:234-252 | grown in place exactly when it is the last block of the head chunk with room behind it, and else moved to where `Malloc` cuts; null exactly when no chunk can be had for the move; the old contents are at the new block and no other live block or its contents change |
| `Allocator.MemoryPoolAllocator.Realloc` | src/Livox-SDK2/3rdparty/rapidjson/allocators.h:223-253 | kept in place when it need not grow, grown in place or moved, and to where, as the sizes and the head chunk decide; null exactly for a new size of zero or when a move finds no chunk; the old contents are at the new block and no other live block or its contents change |
| `Allocator.MemoryPoolAllocator.MoveTo` | src/Livox-SDK2/3rdparty/rapidjson/allocators.h:247-252 | the contents arrive at the new block, and every other live block keeps its own |
| `Allocator.MemoryPoolAllocator.Clear` | src/Livox-SDK2/3rdparty/rapidjson/allocators.h:178-186 | nothing is live; every chunk but the user's buffer is gone, and that is emptied |
| `Allocator.MemoryPoolAllocator.Size` | src/Livox-SDK2/3rdparty/rapidjson/allocators.h:201-205 | the bytes filled in all chunks, at most the capacity |
| `Allocator.MemoryPoolAllocator.Capacity` | src/Livox-SDK2/3rdparty/rapidjson/allocators.h:191-196 | the capacity of all chunks |
| `SchemaPath.PopAppended` | src/Livox-SDK2/3rdparty/rapidjson/schema.h:2506-2529 | popping to the slash takes off exactly the token that was appended |
| `SchemaPath.EscapedHasNoSlash` | src/Livox-SDK2/3rdparty/rapidjson/schema.h:2514-2529 | an escaped name holds no slash |
| `SchemaPath.PopMore` | src/Livox-SDK2/3rdparty/rapidjson/schema.h:2506-2529 | popping back from a child leaves the pointer of its parent |
| `SchemaPath.ValuePointed` | src/Livox-SDK2/3rdparty/rapidjson/schema.h:2247-2342 | while the events of a value are judged, from anywhere in a document, the document stack is at each of them the pointer of the value it belongs to, and afterwards it is as before |
| `SchemaPath.DocumentPointed` | src/Livox-SDK2/3rdparty/rapidjson/schema.h:2430-2529 | in every run over a whole document in which all values pass, the document stack is at every event the escaped pointer of the value being validated, it parses back to the names and indices of that path, and at the end it is empty |
| `SchemaPath.Validator.AppendName` | src/Livox-SDK2/3rdparty/rapidjson/schema.h:2514-2529 | the loop appends a slash and the escaped name |
| `SchemaPath.Validator.RemoveToken` | src/Livox-SDK2/3rdparty/rapidjson/schema.h:2506-2509 | the loop takes off the last token and its slash |
| `SchemaPath.Validator.BeginValue` | src/Livox-SDK2/3rdparty/rapidjson/schema.h:2430-2464 | the stacks when a value begins |
| `SchemaPath.Validator.EndValue` | src/Livox-SDK2/3rdparty/rapidjson/schema.h:2466-2512 | the stacks when a value ends |
| `SchemaPath.Validator.Handle` | src/Livox-SDK2/3rdparty/rapidjson/schema.h:2247-2342 | once invalid, nothing changes; a rejected value leaves its own pointer on the document stack; a passed one continues the run |
| `Hasher.Hasher.EndObject` | src/Livox-SDK2/3rdparty/rapidjson/schema.h:298-307 | the members' codes are taken off in pairs and mixed into the code of the object |
| `Hasher.MachineComputesCode` | src/Livox-SDK2/3rdparty/rapidjson/schema.h:248-316 | running the events of a value on the hasher, from any stack, pushes its recursive code and touches nothing below |
| `Hasher.PermutedHasEqualCode` | src/Livox-SDK2/3rdparty/rapidjson/schema.h:298-316 | permuting members at any depth never changes the code the hasher ends with, whatever names repeat and whatever the integers |
| `Hasher.MeaningDecidesCode` | src/Livox-SDK2/3rdparty/rapidjson/schema.h:298-307 | values without duplicate names that mean the same have the same code, whatever the order of members at any depth |
| `Hasher.EqualHasEqualCode` | src/Livox-SDK2/3rdparty/rapidjson/schema.h:2488-2503 | for a left operand without duplicate names, and numbers of both from one range of 2^64 integers, values the operator finds equal hash to one code, so a check for an enumeration or for unique items never misses one |
| `Hasher.HashInjective` | src/Livox-SDK2/3rdparty/rapidjson/schema.h:350-355 | one step of the hash never merges two inputs |
| `HasherSensitivity.StateInjective` | src/Livox-SDK2/3rdparty/rapidjson/schema.h:350-355 | nor does one step from two states, whatever the input |
| `HasherSensitivity.ElementCounts` | src/Livox-SDK2/3rdparty/rapidjson/schema.h:309-316 | arrays that differ in one element have the same code if and only if the two elements have |
| `HasherSensitivity.MemberCounts` | src/Livox-SDK2/3rdparty/rapidjson/schema.h:298-307 | objects that differ in one member have the same code if and only if name and value of the two hash alike |
| `HasherSensitivity.ItemTells` | src/Livox-SDK2/3rdparty/rapidjson/schema.h:302-304 | a member hashes differently when its value or its name has another code |
| `HasherSensitivity.ChangeShows` | src/Livox-SDK2/3rdparty/rapidjson/schema.h:298-316 | changing the value at any one location of a document, at any depth, changes the code the hasher ends with if and only if it changes the code of that value |
| `HasherSensitivity.StringTells` | src/Livox-SDK2/3rdparty/rapidjson/schema.h:341-348 | strings that differ in one byte have different codes |
| `HasherSensitivity.NeighboursTell` | src/Livox-SDK2/3rdparty/rapidjson/schema.h:252-282 | integers that share their double but not the low byte of their pattern have different codes |
| `HasherSensitivity.OrderTells` | src/Livox-SDK2/3rdparty/rapidjson/schema.h:309-316 | exchanging two neighbours in an array, wherever they stand, changes its code whenever their codes differ in the lowest bit |
| `HasherSensitivity.FalseAndNull` | src/Livox-SDK2/3rdparty/rapidjson/schema.h:309-316 | so it does for `false` beside `null` |
| `HasherSensitivity.KindsTell` | src/Livox-SDK2/3rdparty/rapidjson/schema.h:248-349 | null, false, true and the empty string, array and object have six different codes |
| `HasherSensitivity.OffsetHalves` | src/Livox-SDK2/3rdparty/rapidjson/schema.h:342-343 | the start value is the FNV-1a offset basis with its halves exchanged |
| `Hasher.DuplicatesMissed` | src/Livox-SDK2/3rdparty/rapidjson/schema.h:298-306 | the restriction to distinct names is needed: an object with a repeated member and one the operator finds equal to it have different codes, because the repeated member cancels in the fold |
| `Hasher.HugeMissed` | src/Livox-SDK2/3rdparty/rapidjson/schema.h:250-282 | the restriction to one range is needed: -1 and 2^64 - 1 are equal for the operator and have different codes, because their doubles are hashed too |
| `FileStream.FileReadStream.PeekIsFile` | src/Livox-SDK2/3rdparty/rapidjson/filereadstream.h:62-71 | the current character is the character of the file at `Tell`, or NUL at its end, wherever the buffer stands |
| `FileStream.FileReadStream.Take` | src/Livox-SDK2/3rdparty/rapidjson/filereadstream.h:63-67 | yields that character and moves on by one, staying at the end |
| `FileStream.FileReadStream.Read` | src/Livox-SDK2/3rdparty/rapidjson/filereadstream.h:90-107 | refilling keeps the stream the text of the file |
| `FileStream.FileReadStream.Peek4` | src/Livox-SDK2/3rdparty/rapidjson/filereadstream.h:85-88 | four characters exactly when four are left in the buffer, and then they are the next four of the file |
| `FileStream.ReadAll` | src/Livox-SDK2/3rdparty/rapidjson/filereadstream.h:62-107 | taking characters to a NUL yields the file up to its first NUL, or all of it, whatever the size of the buffer |
| `CrcWords.WordStepIsFourBytes` | src/Livox-SDK2/3rdparty/FastCRC/FastCRCsw.cpp:421-425 | for every polynomial, register and word, one lookup in the four chained tables is four byte steps; sixteen-bit and thirty-two-bit checks alike |
| `CrcWords.SmallWordStepIsFourBytes` | src/Livox-SDK2/3rdparty/FastCRC/FastCRCsw.cpp:427-431 | the form with the small table is four byte steps too |
| `CrcTheory.ByteStepDivides` | src/Livox-SDK2/3rdparty/FastCRC/FastCRCsw.cpp:191-193 | one table step on the register as it is held (bit-reversed or byte-swapped) is eight bits of polynomial division on the true register |
| `CrcTheory.ByteLoopDivides` | src/Livox-SDK2/3rdparty/FastCRC/FastCRCsw.cpp:445-477 | a whole byte loop is bit-at-a-time division of the whole message |
| `FastCrc.RunTable` | src/Livox-SDK2/3rdparty/FastCRC/FastCRCsw.cpp:445-477 | for every start address, length, register and table size, prologue, 16-byte body and tail leave what a plain byte loop leaves |
| `FastCrc.FirstCall` | src/Livox-SDK2/3rdparty/FastCRC/FastCRCsw.cpp:481-486 | a first call returns the check as catalogues define it by polynomial, initial value, reflection and final XOR |
| `FastCrc.FastCRC16.CcittUpd` | src/Livox-SDK2/3rdparty/FastCRC/FastCRCsw.cpp:173-199 | register kept and value returned after an update: division from the kept register, byte-swapped on return only |
| `FastCrc.FastCRC16.Ccitt` | src/Livox-SDK2/3rdparty/FastCRC/FastCRCsw.cpp:200-205 | the check with polynomial 0x1021, initial 0xFFFF, neither reflected nor inverted |
| `FastCrc.FastCRC16.Mcrf4xxUpd` | src/Livox-SDK2/3rdparty/FastCRC/FastCRCsw.cpp:214-239 | register kept and value returned after an update |
| `FastCrc.FastCRC16.Mcrf4xx` | src/Livox-SDK2/3rdparty/FastCRC/FastCRCsw.cpp:241-246 | the reflected check with polynomial 0x1021 from the register 0 the code starts with |
| `FastCrc.FastCRC16.ModbusUpd` | src/Livox-SDK2/3rdparty/FastCRC/FastCRCsw.cpp:254-274 | register kept and value returned after an update |
| `FastCrc.FastCRC16.Modbus` | src/Livox-SDK2/3rdparty/FastCRC/FastCRCsw.cpp:281-286 | the reflected check with polynomial 0x8005 and initial 0xFFFF |
| `FastCrc.FastCRC16.KermitUpd` | src/Livox-SDK2/3rdparty/FastCRC/FastCRCsw.cpp:294-314 | register kept and value returned after an update |
| `FastCrc.FastCRC16.Kermit` | src/Livox-SDK2/3rdparty/FastCRC/FastCRCsw.cpp:321-327 | the reflected check with polynomial 0x1021 and initial 0 |
| `FastCrc.FastCRC16.XmodemUpd` | src/Livox-SDK2/3rdparty/FastCRC/FastCRCsw.cpp:335-356 | register kept and value returned after an update, byte-swapped on return only |
| `FastCrc.FastCRC16.Xmodem` | src/Livox-SDK2/3rdparty/FastCRC/FastCRCsw.cpp:363-368 | the unreflected check with polynomial 0x1021 and initial 0 |
| `FastCrc.FastCRC16.X25Upd` | src/Livox-SDK2/3rdparty/FastCRC/FastCRCsw.cpp:376-398 | register kept before the final inversion, value returned after it |
| `FastCrc.FastCRC16.X25` | src/Livox-SDK2/3rdparty/FastCRC/FastCRCsw.cpp:405-410 | the reflected check with polynomial 0x1021, initial and final 0xFFFF |
| `FastCrc.FastCRC32.Crc32Upd` | src/Livox-SDK2/3rdparty/FastCRC/FastCRCsw.cpp:445-474 | register kept before the final inversion, value returned after it, with big and small tables alike |
| `FastCrc.FastCRC32.Crc32` | src/Livox-SDK2/3rdparty/FastCRC/FastCRCsw.cpp:481-486 | the check of section 8 of RFC 1952: reflected, polynomial 0x04C11DB7, initial and final 0xFFFFFFFF |
| `FastCrc.FastCRC32.CksumUpd` | src/Livox-SDK2/3rdparty/FastCRC/FastCRCsw.cpp:499-527 | register kept before swap and inversion, value returned after them, with big and small tables alike |
| `FastCrc.FastCRC32.Cksum` | src/Livox-SDK2/3rdparty/FastCRC/FastCRCsw.cpp:534-539 | the unreflected check with polynomial 0x04C11DB7, initial 0 and final 0xFFFFFFFF |
| `CrcConsequences.SplittingIsInvisible` | src/Livox-SDK2/3rdparty/FastCRC/FastCRCsw.cpp:445-486 | any chain of updates, over any cutting of a message, leaves the register one call over the whole message leaves |
| `CrcConsequences.ChainYieldsCatalogue` | src/Livox-SDK2/3rdparty/FastCRC/FastCRCsw.cpp:445-486 | what the last call of the chain returns is the check of the whole message |
| `CrcPieces.CcittInPieces` | src/Livox-SDK2/3rdparty/FastCRC/FastCRCsw.cpp:173-205 | the first call on one piece and an update on each further piece, at any addresses, return the check of the whole message; the register is swapped in what is returned only |
| `CrcPieces.XmodemInPieces` | src/Livox-SDK2/3rdparty/FastCRC/FastCRCsw.cpp:335-368 | the first call on one piece and an update on each further piece, at any addresses, return the check of the whole message; the register is swapped in what is returned only |
| `CrcPieces.KermitInPieces` | src/Livox-SDK2/3rdparty/FastCRC/FastCRCsw.cpp:294-327 | the first call on one piece and an update on each further piece, at any addresses, return the check of the whole message; the register is what is returned |
| `CrcPieces.ModbusInPieces` | src/Livox-SDK2/3rdparty/FastCRC/FastCRCsw.cpp:254-286 | the first call on one piece and an update on each further piece, at any addresses, return the check of the whole message; the register is what is returned |
| `CrcPieces.X25InPieces` | src/Livox-SDK2/3rdparty/FastCRC/FastCRCsw.cpp:376-410 | the first call on one piece and an update on each further piece, at any addresses, return the check of the whole message; the register is inverted in what is returned only |
| `CrcPieces.Crc32InPieces` | src/Livox-SDK2/3rdparty/FastCRC/FastCRCsw.cpp:445-486 | the first call on one piece and an update on each further piece, at any addresses, return the check of the whole message; the register is inverted in what is returned only |
| `CrcPieces.CksumInPieces` | src/Livox-SDK2/3rdparty/FastCRC/FastCRCsw.cpp:499-539 | the first call on one piece and an update on each further piece, at any addresses, return the check of the whole message; the register is swapped and inverted in what is returned only |
| `CrcConsequences.ReflectedIsLsbFirst` | src/Livox-SDK2/3rdparty/FastCRC/FastCRCsw.cpp:445-486 | for reflected checks the division is the one that shifts right, least significant bit first |
| `CrcNumbers.ReflectedInWords` | src/Livox-SDK2/3rdparty/FastCRC/FastCRCsw.cpp:445-486 | every reflected check of at most 32 bits is the right-shifting loop of section 8 of RFC 1952 over 32-bit machine words |
| `CrcNumbers.UnreflectedInWords` | src/Livox-SDK2/3rdparty/FastCRC/FastCRCsw.cpp:173-205 | every unreflected check is the mirror image of that loop |
| `CrcNumbers.TableInWords` | src/Livox-SDK2/3rdparty/FastCRC/FastCRC_tables.h:939-1006 | each entry of the first block of a reflected table is eight bits of that loop from its index |
| `CrcNumbers.SwappedTableInWords` | src/Livox-SDK2/3rdparty/FastCRC/FastCRC_tables.h:153-283 | each entry of an unreflected table is the mirror image of one, with its octets swapped |
| `CrcValues.CcittValue` | src/Livox-SDK2/3rdparty/FastCRC/FastCRCsw.cpp:200-205 | for the nine ASCII digits the check is the documented 0x29B1 |
| `CrcValues.XmodemValue` | src/Livox-SDK2/3rdparty/FastCRC/FastCRCsw.cpp:363-368 | for the nine ASCII digits the check is the documented 0x31C3 |
| `CrcValues.KermitValue` | src/Livox-SDK2/3rdparty/FastCRC/FastCRCsw.cpp:321-327 | for the nine ASCII digits the check is the documented 0x2189 |
| `CrcValues.ModbusValue` | src/Livox-SDK2/3rdparty/FastCRC/FastCRCsw.cpp:281-286 | for the nine ASCII digits the check is the documented 0x4B37 |
| `CrcValues.X25Value` | src/Livox-SDK2/3rdparty/FastCRC/FastCRCsw.cpp:405-410 | for the nine ASCII digits the check is the documented 0x906E |
| `CrcValues.Crc32Value` | src/Livox-SDK2/3rdparty/FastCRC/FastCRCsw.cpp:481-486 | for the nine ASCII digits the check is the documented 0xCBF43926 |
| `CrcValues.CksumValue` | src/Livox-SDK2/3rdparty/FastCRC/FastCRCsw.cpp:534-539 | for the nine ASCII digits the check is the documented 0x765E7680 |
| `CrcValues.Mcrf4xxValue` | src/Livox-SDK2/3rdparty/FastCRC/FastCRCsw.cpp:241-246 | for the nine ASCII digits the check is 0x2189, not the documented 0x6F91 |
| `CrcValues.Mcrf4xxFromOnesValue` | src/Livox-SDK2/3rdparty/FastCRC/FastCRCsw.cpp:241-246 | the documented value would come from the initial register the comment gives |
| `CrcValues.Crc32Entry` | src/Livox-SDK2/3rdparty/FastCRC/FastCRC_tables.h:1007-1007 | the entry of octet 1 is 0x77073096 |
| `CrcValues.ModbusEntry` | src/Livox-SDK2/3rdparty/FastCRC/FastCRC_tables.h:416-416 | the entry of octet 1 is 0xC0C1 |
| `CrcValues.KermitEntry` | src/Livox-SDK2/3rdparty/FastCRC/FastCRC_tables.h:547-547 | the entry of octet 1 is 0x1189 |
| `CrcValues.CcittEntry` | src/Livox-SDK2/3rdparty/FastCRC/FastCRC_tables.h:154-154 | the entry of octet 1 is 0x2110 |
| `CrcValues.CksumEntry` | src/Livox-SDK2/3rdparty/FastCRC/FastCRC_tables.h:1266-1266 | the entry of octet 1 is 0xB71DC104 |
| `CrcConsequences.DivideInjective` | src/Livox-SDK2/3rdparty/FastCRC/FastCRCsw.cpp:445-486 | with an odd polynomial the register after a message determines the register before it |
| `CrcConsequences.BurstDetected` | src/Livox-SDK2/3rdparty/FastCRC/FastCRCsw.cpp:445-486 | for every 32-bit check with an odd polynomial, messages of one length that differ within four consecutive bytes only have different checks |
| `CrcConsequences.Crc32Distinguishes` | src/Livox-SDK2/3rdparty/FastCRC/FastCRCsw.cpp:445-486 | so for CRC-32 |
| `CrcConsequences.ConstantResidue` | src/Livox-SDK2/3rdparty/FastCRC/FastCRCsw.cpp:445-486 | appending its own CRC-32, least significant byte first, to any message gives one constant check |

## Left out

- Doubles: the conversion of numerals, shortest printing, NaN, infinities and comparison with doubles. A double event carries its numeral, and whether it overflows is a parameter of the flags.
- The flags for full precision, for numbers as strings and for NaN and infinity.
- Vector instructions for skipping white space and scanning strings; they are optional when building.
- Handlers that refuse an event, with the termination error. A handler is the list of events it received.
- `internal/stack.h` and `internal/itoa.h` are not part of this model: the stack is last in, first out, and integer printing gives the shortest decimal.
- Running out of memory in stacks and strings, and wrap-around of `size_t` and `SizeType`.
- Inheritance: `PrettyWriter` is a style of the class `Writer` rather than a class derived from it.
- The union layout of values, short strings and pointer packing; a document value is a datatype, so sharing and moving of values are not modelled.
- Raw values, raw numbers and the limit on decimal places of the writer.
- Encodings other than UTF-8 and UTF-16, byte order marks, and encodings chosen while running.
- Schema compilation, references, patterns and the judgements of keywords; the validator takes each verdict as a parameter.
- `FastCRC7` and `FastCRC8`: single byte-table loops that would only add easy members.
- The hardware checksums, device discovery, firmware upgrade, samples and field-by-field checks of the configuration.
- Equality.EqualIff: both values hold integers only, because comparison of doubles rounds; the right operand's duplicates are covered, the left operand's are the counterexample.
- Equality.Equivalence: integers only; reflexivity and symmetry want no duplicate names on the left (`Equality.SymmetricIff` says when symmetry fails).
- Equality.Compare: integers only, for the same reason.
- Hasher.MachineComputesCode: integers only; the bytes of the double that is hashed beside an integer are a parameter.
- Hasher.EqualHasEqualCode: the left operand has no duplicate names, because with them the operator is true of values that are no permutations of one another; and the numbers of both lie in one range of 2^64 integers, such as the signed or the unsigned ones, because otherwise the operator finds different integers equal. `Hasher.DuplicatesMissed` and `Hasher.HugeMissed` show both needed. A converse does not hold, since codes can collide; `HasherSensitivity` says which changes never go unnoticed.
- HasherSensitivity.ChangeShows: integers only; and one change at a time, since two can cancel.
- HasherSensitivity.NeighboursTell: patterns that differ in the low byte only; changes in several bytes can cancel.
- HasherSensitivity.OrderTells: neighbours whose codes agree in the lowest bit are not judged.
- Hasher.MeaningDecidesCode: the same two restrictions; permutations as such need neither (`Hasher.PermutedHasEqualCode`).
- TokenByToken.CallsAgree: what a call does after it has made a transition with the error of a comment set is not modelled, because the reader's own assertions rule out setting a second error.
- TokenByToken.CallsRun: the same.
- Reader.GenericReader.IterativeParseNext: not called where it would make a transition with the error of a comment set.
- Reader.GenericReader.ParseNumber: the flags for full precision, numbers as strings, NaN and infinity are off, and the conversion to double is a parameter.
- WriterText.WritesValue: values hold no doubles.
- RoundTrip.PrintThenParse: values hold no doubles, and for a reader that checks the encoding their strings are valid UTF-8.
- RoundTrip.PrintedTree: the same.
- RoundTrip.TextReads: the same.
- WriterRuns.RunShows: the calls carry no doubles.
- WriterRuns.CompleteMeansValue: the calls carry no doubles.
- Writer.Writer.Accept: values hold no doubles.
- Insitu.InsituReader.ParseString: called where decoding stays in the buffer; outside it there is no byte to model.
- InsituDocument.DecodeStrings: the other productions of an in-place parse only read, so they are the moves of the read position from one string to the next.
- PointerResolve.Lens: locations stand for references into the document, so what a caller does through the returned reference is modelled as replacing the value there.
- Allocator.MemoryPoolAllocator.Malloc: the base allocator's answer is a parameter that is apart from every chunk in use; the header is that of a 64-bit machine.
- SchemaPath.DocumentPointed: runs in which every value passes; a run that rejects one stops there, with the path `SchemaPath.Validator.Handle` gives. Array indices do not wrap at 32 bits.
- SchemaPath.ValuePointed: the same.
- SchemaPath.Validator.Handle: whether the schema accepts a value is a parameter.
- SchemaPath.Validator.BeginValue: the same.
- SchemaPath.Validator.EndValue: the same.
- FileStream.FileReadStream.Take: the file holds what it held when it was opened, and reading does not fail.
