# Verification of the JSON engine, the hex-grid planner, the IMU/LiDAR packager and the Livox handshake

This project models the parts of the robot's software whose behaviour is hardest to see from the code, and proves
properties of the models. `dafny verify dfyconfig.toml` checks all of it. Nothing was executed.

**The JSON engine** that the Livox driver reads its configuration with.

- Text is a byte string with a cursor; past its end a stream shows a NUL. `ReaderSpec` is the grammar twice over: by
  recursion, and as the table-driven automaton with its stack of saved states. `ParserEquivalence` proves the two equal on
  every input. `Reader` is the code itself, a class whose methods move a cursor and push and pop a stack, proved
  against the two.
- `Syntax` is the grammar of RFC 8259 as syntax trees, apart from the reader; `SyntaxLeaves`, `SyntaxReads` and `SyntaxGives`
  prove that the reader takes exactly the texts of its trees.
- `Insitu` decodes strings inside the array they are read from, `InsituReader` parses whole documents that way,
  by recursive descent and by the automaton.
- `Bits`, `Utf8` and `Codec` are the encodings with their masks, shifts and range table.
- `WriterSpec`, `Writer`, `Itoa` and `ValueWriter` are the printers, `Printing` the text of a value, `LeafRoundTrip` and `RoundTrip`
  the proof that parsing undoes printing; `Layout` and `ShortestStrings` say which text is printed.
- `Document` is the stack machine that builds values, `Equality` the comparison operator, `Coherence` and `RepeatedNames`
  what it does with repeated names.
- `PointerSpec`, `Pointer` and `PointerAccess` are JSON Pointers: syntax, the parser's buffer, and `Get` and `Create`;
  `PointerLaws` compares them with RFC 6901.
- `PoolAllocator` is the chunked bump allocator, on addresses.

**The planner** (`HexGrid`, `HexSearch`, `PathSmoothing`, `CustomPlanner`). The queue may hand out any of its entries, so
the results hold for every priority function and every way of breaking ties, the code's own included. Costs and
coordinates are exact reals.

**The packager** (`ImuLidarSync`, `PackagerLaws`) and **the handshake** (`LivoxHandshake`) are state machines. Callbacks, timer steps,
acknowledgements and timeouts come in any order and number; a class holds the code of each step, a log records what has
happened, and the invariants are proved for every run.

Where the code and its own comments disagree, the model follows the code: on repeated names in `operator==`
(`Coherence.RepeatedNamesMayBeEqual`), on pointer indices that overflow (`PointerSpec.OverflowUnnoticed`) and on encoded
solidi in pointer fragments (`PointerLaws.EncodedSolidusStays`). Properties
that fail on some inputs are stated with the exact condition beside the counterexample: `Equality.NumbersEqualIff`,
`Coherence.ReflexiveIffCoherent`, `Coherence.SymmetricIff`, `Coherence.TransitiveIff`, `RepeatedNames.EqualsSomethingIff`,
`PointerSpec.OverflowNoticedIff`, `PointerLaws.FragmentIffDecoded`, `PointerAccess.ResolvesAfterwards`, `ImuLidarSync.SamplesPassInOrder`,
`ImuLidarSync.ForwardSamplesLostIff`, `ImuLidarSync.PackagesPairedIff`, `LivoxHandshake.QuietDeviceSamplesIff`.

Conventions: `hide` statements only narrow what the solver looks at; they assume nothing. Specification functions thread
their output through an accumulator (`Cursor`), as the code threads its handler.

## Model

| member | source | states |
|---|---|---|
| `ParserEquivalence.ParsersAgree` | `livox_ws/src/livox_ros_driver2/3rdparty/rapidjson/reader.h:2401-2433` | For every text and every setting of the comments, trailing-commas and stop-when-done flags, the explicit-stack automaton accepts exactly when recursive descent accepts, stops at the same position, and emits the same events with the same member and element counts |
| `ParserEquivalence.ValueSimulation` | `livox_ws/src/livox_ros_driver2/3rdparty/rapidjson/reader.h:2192-2350` | From any state that expects a value, any stack and any position, the automaton behaves as recursive descent does on that value and then goes on in the state that follows it |
| `ParserEquivalence.MembersSimulation` | `livox_ws/src/livox_ros_driver2/3rdparty/rapidjson/reader.h:798-865` | A member list from its next name on: the automaton, after an opening brace or a comma, does what the member loop of recursive descent does |
| `ParserEquivalence.ElementsSimulation` | `livox_ws/src/livox_ros_driver2/3rdparty/rapidjson/reader.h:868-913` | The same for the elements of an array |
| `ParserEquivalence.DelimitedEnd` | `livox_ws/src/livox_ros_driver2/3rdparty/rapidjson/reader.h:856-863` | A closing bracket right after a comma: the automaton takes it only with trailing commas, and the item parser would have failed on it |
| `SyntaxGives.AcceptedIffDocument` | `livox_ws/src/livox_ros_driver2/3rdparty/rapidjson/reader.h:615-645` | For every text and flag setting, both parsers accept it up to a position with a list of events exactly when a document of the grammar stands there whose tree announces these events. The grammar (module Syntax) is written apart from the reader: sections 2 to 7 of RFC 8259 as syntax trees, with comments and trailing commas where the flags allow them, single low surrogates let through, and the end rules of stop-when-done |
| `SyntaxReads.TreeReads` | `livox_ws/src/livox_ros_driver2/3rdparty/rapidjson/reader.h:1872-1895` | The text of any tree, standing anywhere where nothing goes on with it, is read as exactly its events |
| `SyntaxGives.ValueGives` | `livox_ws/src/livox_ros_driver2/3rdparty/rapidjson/reader.h:1872-1895` | Whatever is read as a value is the text of a tree |
| `SyntaxLeaves.NumeralReads` | `livox_ws/src/livox_ros_driver2/3rdparty/rapidjson/reader.h:1584-1867` | An optional minus, digits without a leading zero, an optional dot with digits and an optional exponent, followed by a byte that cannot go on with them, are read as exactly that literal: the narrowest exact integer event, or the double of the whole literal, or a failure where that overflows |
| `SyntaxLeaves.NumberGives` | `livox_ws/src/livox_ros_driver2/3rdparty/rapidjson/reader.h:1584-1867` | Every number that is read splits into such parts |
| `SyntaxLeaves.PiecesRead` | `livox_ws/src/livox_ros_driver2/3rdparty/rapidjson/reader.h:1058-1129` | Any list of unescaped bytes, two-character escapes (the solidus included), four-digit escapes in either case of hex digits and surrogate pairs is read as the bytes these stand for |
| `SyntaxLeaves.PiecesGive` | `livox_ws/src/livox_ros_driver2/3rdparty/rapidjson/reader.h:1058-1129` | Every string body that is read is such a list |
| `SyntaxLeaves.GapSkips` | `livox_ws/src/livox_ros_driver2/3rdparty/rapidjson/reader.h:770-793` | Any sequence of blanks, block comments and line comments is skipped to its end, a last line comment up to the end of the text |
| `SyntaxLeaves.SkipGives` | `livox_ws/src/livox_ros_driver2/3rdparty/rapidjson/reader.h:770-793` | Whatever is skipped is such a sequence, and ends where neither a blank nor a comment begins |
| `ReaderSpec.TransitKeepsStack` | `livox_ws/src/livox_ros_driver2/3rdparty/rapidjson/reader.h:2192-2333` | Every transition of the automaton leaves a stack whose frames are states to come back to, so no transition pops an empty stack |
| `ReaderSpec.Transit` | `livox_ws/src/livox_ros_driver2/3rdparty/rapidjson/reader.h:2192-2350` | Every transition that succeeds moves the cursor forward and keeps it inside the text, so the automaton stops on every input |
| `Reader.Reader.SkipWhitespaceAndComments` | `livox_ws/src/livox_ros_driver2/3rdparty/rapidjson/reader.h:770-793` | The loops over blanks, block comments and line comments stop where the grammar of blanks and comments ends, and fail exactly on an unfinished comment |
| `Reader.Reader.ParseHex4` | `livox_ws/src/livox_ros_driver2/3rdparty/rapidjson/reader.h:967-987` | The four-digit accumulation is the number the digits denote, and fails exactly when one of them is not a hex digit |
| `Reader.Reader.ParseUnicodeEscape` | `livox_ws/src/livox_ros_driver2/3rdparty/rapidjson/reader.h:1089-1107` | A \u escape with its surrogate pair gives one code point; a high surrogate without a low one fails |
| `Reader.Reader.ParseStringToStream` | `livox_ws/src/livox_ros_driver2/3rdparty/rapidjson/reader.h:1058-1129` | The loop over a string body yields the decoded bytes and the position after the quote |
| `Reader.Reader.ParseString` | `livox_ws/src/livox_ros_driver2/3rdparty/rapidjson/reader.h:1021-1050` | The string event, or the key event, carries the decoded bytes |
| `Reader.Reader.ParseInteger32` | `livox_ws/src/livox_ros_driver2/3rdparty/rapidjson/reader.h:1601-1640` | The 32-bit accumulation never exceeds 32 bits, equals the number read so far, and hands over exactly when one digit more would not fit |
| `Reader.Reader.ParseInteger64` | `livox_ws/src/livox_ros_driver2/3rdparty/rapidjson/reader.h:1668-1701` | The 64-bit accumulation never wraps, and the literal becomes a double exactly when its value exceeds the 64-bit range of its sign |
| `Reader.Reader.ParseInteger` | `livox_ws/src/livox_ros_driver2/3rdparty/rapidjson/reader.h:1600-1705` | The two stages together classify the literal as 32-bit, 64-bit or double by its value alone |
| `Reader.Reader.ParseNumber` | `livox_ws/src/livox_ros_driver2/3rdparty/rapidjson/reader.h:1584-1867` | Integer part, fraction and exponent are recognised as section 6 of RFC 8259 writes them, and the event is the exact integer or the converted literal |
| `LeafRoundTrip.IntegerLiteralExact` | `livox_ws/src/livox_ros_driver2/3rdparty/rapidjson/reader.h:1850-1863` | For integer literals of any length the event carries exactly the value, in the narrowest type for its sign, if and only if the value is in [-2^63, 2^64-1]; otherwise it is a double |
| `Reader.Reader.ParseNull` | `livox_ws/src/livox_ros_driver2/3rdparty/rapidjson/reader.h:916-926` | The word null is accepted exactly when its four bytes stand there |
| `Reader.Reader.ParseTrue` | `livox_ws/src/livox_ros_driver2/3rdparty/rapidjson/reader.h:929-939` | The same for true |
| `Reader.Reader.ParseFalse` | `livox_ws/src/livox_ros_driver2/3rdparty/rapidjson/reader.h:942-952` | The same for false |
| `Reader.Reader.ParseValue` | `livox_ws/src/livox_ros_driver2/3rdparty/rapidjson/reader.h:1872-1895` | The recursive parser meets the recursive grammar: same outcome, position and events |
| `Reader.Reader.ParseObject` | `livox_ws/src/livox_ros_driver2/3rdparty/rapidjson/reader.h:798-865` | Members, commas, colons and trailing commas as the grammar has them, with the member count in the closing event |
| `Reader.Reader.ParseArray` | `livox_ws/src/livox_ros_driver2/3rdparty/rapidjson/reader.h:868-913` | Elements, commas and trailing commas as the grammar has them, with the element count in the closing event |
| `Reader.Reader.Parse` | `livox_ws/src/livox_ros_driver2/3rdparty/rapidjson/reader.h:615-645` | A whole document: one value, and nothing but blanks and comments after it unless stop-when-done is set |
| `Reader.Reader.Transit` | `livox_ws/src/livox_ros_driver2/3rdparty/rapidjson/reader.h:2192-2350` | One transition of the automaton on the stack of saved states and counts |
| `Reader.Reader.IterativeParse` | `livox_ws/src/livox_ros_driver2/3rdparty/rapidjson/reader.h:2401-2433` | The table-driven loop meets its transition system on every text; with ParsersAgree it therefore meets the recursive parser |
| `Insitu.InsituStream.ParseStringToStream` | `livox_ws/src/livox_ros_driver2/3rdparty/rapidjson/reader.h:1058-1129` | Decoding a string into the buffer it is read from: the write cursor stays at or behind the read cursor, every byte not yet read is unchanged, and the bytes left behind are those of the copying parse plus a terminator |
| `Insitu.InsituStream.ParseString` | `livox_ws/src/livox_ros_driver2/3rdparty/rapidjson/reader.h:1021-1050` | The reported start and length delimit exactly the bytes that the copying parse would have returned |
| `Insitu.InsituStream.ParseEscape` | `livox_ws/src/livox_ros_driver2/3rdparty/rapidjson/reader.h:1075-1112` | An escape writes no more bytes than it reads, surrogate pairs included, so the write cursor comes no nearer to the read cursor; the bytes written are those of the copying parse |
| `Insitu.InsituStream.Put` | `livox_ws/src/livox_ros_driver2/3rdparty/rapidjson/stream.h:200-230` | A write lands behind the read cursor and leaves the unread text as it was |
| `InsituReader.InsituReader.Parse` | `livox_ws/src/livox_ros_driver2/3rdparty/rapidjson/reader.h:615-645` | A whole document parsed in place: for every buffer and every flag setting it is accepted exactly when the copying parse of the same bytes accepts it, and once parsing has ended every string reported on the way, earlier ones included, still stands in the buffer with its terminator, so that the events read off it then are those of the copying parse; what was not read is unchanged |
| `InsituReader.InsituReader.IterativeParse` | `livox_ws/src/livox_ros_driver2/3rdparty/rapidjson/reader.h:2401-2433` | The same by the automaton on the buffer: acceptance, stopping place, events and strings left standing are those of recursive descent on a copy |
| `InsituReader.InsituReader.Transit` | `livox_ws/src/livox_ros_driver2/3rdparty/rapidjson/reader.h:2192-2350` | One transition of the automaton in place: the stack moves as on the original text, and the strings reported before stay |
| `InsituReader.InsituReader.SkipWhitespaceAndComments` | `livox_ws/src/livox_ros_driver2/3rdparty/rapidjson/reader.h:770-793` | The skipping loops on the buffer stop where skipping the original text stops, and keep what was reported |
| `InsituReader.InsituReader.ParseValue` | `livox_ws/src/livox_ros_driver2/3rdparty/rapidjson/reader.h:1872-1895` | A value read in place, after any events: the unread text stays, the strings reported before stay, and the events are those of the copying parse of the original text |
| `InsituReader.InsituReader.ParseString` | `livox_ws/src/livox_ros_driver2/3rdparty/rapidjson/reader.h:1027-1037` | A string is reported as a place in the buffer that no later string overwrites; what it shows is what the copying parse returns for the original text, although strings before it were already overwritten |
| `InsituReader.SameScalar` | `livox_ws/src/livox_ros_driver2/3rdparty/rapidjson/reader.h:1584-1867` | A number or a word is read from the bytes at and after the cursor only, so overwritten strings before it make no difference |
| `Utf8.Encode` | `livox_ws/src/livox_ros_driver2/3rdparty/rapidjson/encodings.h:108-125` | Masks and shifts write the arithmetic encoding of section 3 of RFC 3629 |
| `Utf8.DecodeInvertsEncode` | `livox_ws/src/livox_ros_driver2/3rdparty/rapidjson/encodings.h:108-212` | Decoding the encoding of a scalar value gives that value and its length |
| `Utf8.EncodeInvertsDecode` | `livox_ws/src/livox_ros_driver2/3rdparty/rapidjson/encodings.h:148-212` | Encoding a decoded code point gives the bytes it was read from |
| `Codec.MaskAdmits` | `livox_ws/src/livox_ros_driver2/3rdparty/rapidjson/encodings.h:269-298` | The range table and its masks admit exactly the continuation bytes of section 4 of RFC 3629 |
| `Codec.LeadBits` | `livox_ws/src/livox_ros_driver2/3rdparty/rapidjson/encodings.h:163-166` | The shift of 0xFF by the range code masks exactly the payload bits of a lead byte |
| `Codec.Decode` | `livox_ws/src/livox_ros_driver2/3rdparty/rapidjson/encodings.h:148-212` | The table-driven decoder accepts exactly the well-formed sequences and returns their code point |
| `Codec.Validate` | `livox_ws/src/livox_ros_driver2/3rdparty/rapidjson/encodings.h:214-267` | Validation accepts what decoding accepts, copies every byte it takes, and takes as many as the lead byte announces |
| `Codec.ValidateAll` | `livox_ws/src/livox_ros_driver2/3rdparty/rapidjson/encodings.h:214-267` | Repeated validation consumes a whole string of any length successfully exactly when it is the encoding of some scalar values, and copies it unchanged |
| `Codec.ValidIffWellFormed` | `livox_ws/src/livox_ros_driver2/3rdparty/rapidjson/encodings.h:214-267` | Decoding from the front to the end succeeds exactly on the encodings of sequences of scalar values |
| `Codec.Encode16` | `livox_ws/src/livox_ros_driver2/3rdparty/rapidjson/encodings.h:355-368` | One unit or a surrogate pair, as section 2.1 of RFC 2781 computes it |
| `Codec.Decode16` | `livox_ws/src/livox_ros_driver2/3rdparty/rapidjson/encodings.h:388-402` | Units outside surrogates stand for themselves, a pair for its code point, a lone or reversed surrogate fails (section 2.2 of RFC 2781) |
| `Codec.DecodeInvertsEncode16` | `livox_ws/src/livox_ros_driver2/3rdparty/rapidjson/encodings.h:355-402` | Decoding the UTF-16 encoding of a scalar value gives that value |
| `Codec.EncodeInvertsDecode16` | `livox_ws/src/livox_ros_driver2/3rdparty/rapidjson/encodings.h:355-402` | Encoding what was decoded gives the units it was read from |
| `Codec.Transcode8To16` | `livox_ws/src/livox_ros_driver2/3rdparty/rapidjson/encodings.h:754-760` | The loop of one-code-point transcodings computes the transcoding of the whole string, or fails where it is ill-formed |
| `Codec.Transcode16To8` | `livox_ws/src/livox_ros_driver2/3rdparty/rapidjson/encodings.h:754-760` | The same from UTF-16 to UTF-8 |
| `Codec.TranscodingRoundTrip` | `livox_ws/src/livox_ros_driver2/3rdparty/rapidjson/encodings.h:750-778` | UTF-8 to UTF-16 and back is the identity exactly on well-formed strings; on all others transcoding fails |
| `Codec.TranscodingRoundTrip16` | `livox_ws/src/livox_ros_driver2/3rdparty/rapidjson/encodings.h:750-778` | UTF-16 to UTF-8 succeeds exactly on the UTF-16 encodings of scalar values, and back again is the identity on them |
| `Writer.Writer.Prefix` | `livox_ws/src/livox_ros_driver2/3rdparty/rapidjson/writer.h:560-580` | Separators by the level stack: a comma in arrays, comma and colon alternating in objects, one root only; the count of the level goes up by one |
| `Writer.Writer.PrettyPrefix` | `livox_ws/src/livox_ros_driver2/3rdparty/rapidjson/prettywriter.h:263-303` | The same separators with line breaks and indentation, or a space in single-line arrays |
| `Writer.Writer.WriteIndent` | `livox_ws/src/livox_ros_driver2/3rdparty/rapidjson/prettywriter.h:305-309` | As many indentation characters as depth times count |
| `Writer.Writer.PutUnit` | `livox_ws/src/livox_ros_driver2/3rdparty/rapidjson/writer.h:476-479` | Four hex digits taken from the unit by shifts and masks |
| `Writer.Writer.PutCodepoint` | `livox_ws/src/livox_ros_driver2/3rdparty/rapidjson/writer.h:474-496` | A code point above U+FFFF becomes its surrogate pair of escapes |
| `Writer.Writer.WriteString` | `livox_ws/src/livox_ros_driver2/3rdparty/rapidjson/writer.h:437-517` | The quoted text of a string by the escape table; with an ASCII target it fails exactly on bytes that are not UTF-8 |
| `Writer.Writer.EndContainer` | `livox_ws/src/livox_ros_driver2/3rdparty/rapidjson/prettywriter.h:180-233` | A level is popped, and a line break precedes the bracket exactly in a non-empty container that is not a single-line array |
| `Writer.Writer.Scalar` | `livox_ws/src/livox_ros_driver2/3rdparty/rapidjson/writer.h:200-247` | A scalar is preceded by its separator; the whole new state is given |
| `Writer.Writer.Handle` | `livox_ws/src/livox_ros_driver2/3rdparty/rapidjson/writer.h:200-296` | Every handler call that meets the assertions moves the writer as its transition system says |
| `Printing.WriterPrintsValue` | `livox_ws/src/livox_ros_driver2/3rdparty/rapidjson/writer.h:200-296` | Driven by the events of any printable value, in any style, the writer emits the text of that value defined by recursion over it, and ends with an empty level stack |
| `Printing.ValueWrites` | `livox_ws/src/livox_ros_driver2/3rdparty/rapidjson/document.h:2286-2331` | The same in the middle of a document: at any level and indentation, the value's text is appended and the level's count goes up by one |
| `ValueWriter.Accept` | `livox_ws/src/livox_ros_driver2/3rdparty/rapidjson/document.h:2286-2331` | The recursive traversal of any printable value with the writer as the handler, at any level: the separator and then the text of the value are appended, the level counts one more, and no handler assertion fails on the way |
| `ValueWriter.AcceptArray` | `livox_ws/src/livox_ros_driver2/3rdparty/rapidjson/document.h:2308-2312` | The loop over elements keeps separators, indentation and the level count in step with the text of the array |
| `ValueWriter.AcceptObject` | `livox_ws/src/livox_ros_driver2/3rdparty/rapidjson/document.h:2295-2306` | The loop over members keeps names, colons, values and commas in step with the text of the object |
| `ValueWriter.ToText` | `livox_ws/src/livox_ros_driver2/3rdparty/rapidjson/writer.h:200-296` | From an empty writer the traversal yields exactly the text of the value |
| `Layout.TextIsLaidOut` | `livox_ws/src/livox_ros_driver2/3rdparty/rapidjson/prettywriter.h:263-303` | The text of any value in any format is its tokens laid out one after the other, where the white space between two tokens depends only on these two, on how many containers are open and on whether the innermost is an array: a new line and the indent after an opening bracket, after a comma and before a closing one, a space after a colon, nothing in an empty container, and single-line arrays with a space after each comma |
| `ShortestStrings.Shortest` | `livox_ws/src/livox_ros_driver2/3rdparty/rapidjson/writer.h:437-517` | No JSON string that denotes the same bytes is shorter than the text written |
| `ShortestStrings.ShortestAscii` | `livox_ws/src/livox_ros_driver2/3rdparty/rapidjson/writer.h:467-496` | For an ASCII target none of ASCII bytes is |
| `ShortestStrings.CapitalHex` | `livox_ws/src/livox_ros_driver2/3rdparty/rapidjson/writer.h:474-479` | A four-digit escape has capital hex digits and denotes its unit |
| `Printing.PrintableStrings` | `livox_ws/src/livox_ros_driver2/3rdparty/rapidjson/writer.h:469-471` | To UTF-8 every byte string can be written; to ASCII exactly the well-formed ones |
| `Printing.StringTextIsAscii` | `livox_ws/src/livox_ros_driver2/3rdparty/rapidjson/writer.h:467-496` | The text of any string for an ASCII target holds only bytes below 0x80 |
| `RoundTrip.AsciiStringRoundTrip` | `livox_ws/src/livox_ros_driver2/3rdparty/rapidjson/reader.h:1089-1107` | Any well-formed UTF-8 string becomes pure ASCII that the reader turns back into the original bytes (section 7 of RFC 8259) |
| `LeafRoundTrip.StringParses` | `livox_ws/src/livox_ros_driver2/3rdparty/rapidjson/reader.h:1058-1129` | The quoted text of any string, NUL, quotes and control bytes included, is read back as the same bytes wherever it stands |
| `LeafRoundTrip.IntegerParses` | `livox_ws/src/livox_ros_driver2/3rdparty/rapidjson/reader.h:1599-1701` | The digits of any 64-bit integer, followed by anything that does not continue a number, are read back as that integer |
| `RoundTrip.PrintParseRoundTrip` | `livox_ws/src/livox_ros_driver2/3rdparty/rapidjson/reader.h:798-913` | Printing any double-free value, compactly or with any legal indentation and array format, to UTF-8 or ASCII, gives a text that both parsers accept under every setting of the flags, and whose events rebuild exactly that value |
| `RoundTrip.ValueParses` | `livox_ws/src/livox_ros_driver2/3rdparty/rapidjson/reader.h:1872-1895` | The text of any printable value at any depth, standing anywhere in a text, is parsed to exactly its events |
| `RoundTrip.ReformatKeepsValue` | `livox_ws/src/livox_ros_driver2/3rdparty/rapidjson/reader.h:615-645` | Any text that parses to a double-free value, printed again in any UTF-8 style and parsed under any flags, gives the same value |
| `Itoa.U32toa` | `livox_ws/src/livox_ros_driver2/3rdparty/rapidjson/internal/itoa.h:46-111` | The pair-table form writes the canonical decimal digits, without leading zeros, of every 32-bit number |
| `Itoa.U64toa` | `livox_ws/src/livox_ros_driver2/3rdparty/rapidjson/internal/itoa.h:124-272` | The same for every 64-bit number, over all its branches |
| `Itoa.I32toa` | `livox_ws/src/livox_ros_driver2/3rdparty/rapidjson/internal/itoa.h:113-122` | Sign and complement: the canonical text of every 32-bit integer, -2^31 included |
| `Itoa.I64toa` | `livox_ws/src/livox_ros_driver2/3rdparty/rapidjson/internal/itoa.h:274-283` | The same for 64 bits |
| `Itoa.PutLeadingEight` | `livox_ws/src/livox_ros_driver2/3rdparty/rapidjson/internal/itoa.h:190-198` | Leaving out leading zeros by comparing the whole value with powers of ten gives the digits of the upper part |
| `Document.ReplayPushesValue` | `livox_ws/src/livox_ros_driver2/3rdparty/rapidjson/document.h:2286-2331` | Replaying the events of any value, from its own traversal or from parsing its text, into the document handler on any stack leaves that stack plus exactly that value |
| `Document.SuccessfulParseLeavesOneValue` | `livox_ws/src/livox_ros_driver2/3rdparty/rapidjson/document.h:2738-2750` | Every successful parse of any text leaves exactly one value on an empty document's stack, with integers of 64 bits |
| `Document.PairUpFlatten` | `livox_ws/src/livox_ros_driver2/3rdparty/rapidjson/document.h:2982-2991` | Members popped in pairs are the members that were pushed name by name and value by value |
| `Document.GenericDocument.EndObject` | `livox_ws/src/livox_ros_driver2/3rdparty/rapidjson/document.h:2982-2991` | The counted pairs are popped and stored in the object below them, in order; the rest of the stack is unchanged |
| `Document.GenericDocument.EndArray` | `livox_ws/src/livox_ros_driver2/3rdparty/rapidjson/document.h:2995-3000` | The counted values are popped and stored in the array below them, in order; the rest of the stack is unchanged |
| `Document.GenericDocument.Handle` | `livox_ws/src/livox_ros_driver2/3rdparty/rapidjson/document.h:2926-3000` | Every handler call changes the stack as its transition says |
| `Document.GenericDocument.Accept` | `livox_ws/src/livox_ros_driver2/3rdparty/rapidjson/document.h:2286-2331` | Traversing a value with a document as the handler pushes exactly that value |
| `Document.GenericDocument.Populate` | `livox_ws/src/livox_ros_driver2/3rdparty/rapidjson/document.h:2716-2724` | The assertion that one value is on the stack holds, and the document becomes an equal value |
| `Document.GenericDocument.ParseStream` | `livox_ws/src/livox_ros_driver2/3rdparty/rapidjson/document.h:2738-2750` | It succeeds exactly when the text is accepted, the assertion that one value is on the stack holds, and the root is the value the events build; a failure leaves the root alone |
| `Equality.SearchMember` | `livox_ws/src/livox_ros_driver2/3rdparty/rapidjson/document.h:1518-1527` | Linear search for the first member of that name, or the end |
| `Equality.Compare` | `livox_ws/src/livox_ros_driver2/3rdparty/rapidjson/document.h:1110-1147` | The nested loops compute the first-match comparison of two values |
| `Equality.EqualIffSameMeaning` | `livox_ws/src/livox_ros_driver2/3rdparty/rapidjson/document.h:1109-1147` | On values without doubles and without repeated names, equality is exactly equality of what the values mean (members as a map, integers as 64-bit words), whatever the order of members |
| `Equality.EqualKeepsUnique` | `livox_ws/src/livox_ros_driver2/3rdparty/rapidjson/document.h:1115-1125` | What equals a value without repeated names has none either: the size check and the first-match lookup force it by counting |
| `Equality.EquivalenceOnPlain` | `livox_ws/src/livox_ros_driver2/3rdparty/rapidjson/document.h:1102-1108` | On such values equality is reflexive, symmetric and transitive |
| `Equality.NumbersEqualIff` | `livox_ws/src/livox_ros_driver2/3rdparty/rapidjson/document.h:1136-1142` | Two integers compare equal exactly when they are the same number or differ by 2^64 |
| `Equality.MinusOneEqualsMaximum` | `livox_ws/src/livox_ros_driver2/3rdparty/rapidjson/document.h:1142` | -1 and 2^64-1 compare equal, although they are different numbers |
| `Coherence.EqualIffAlikeThroughout` | `livox_ws/src/livox_ros_driver2/3rdparty/rapidjson/document.h:1109-1147` | For all values, repeated names and doubles included: a equals b exactly when whatever is met in a along a path of elements and members, through any member of a name, is alike at the top (the same scalar, or a container of the same size) to what first-match lookup finds along that path in b |
| `Coherence.ReflexiveIffCoherent` | `livox_ws/src/livox_ros_driver2/3rdparty/rapidjson/document.h:1115-1125` | A value equals itself exactly when all that its repeated members hold in one place is alike to what the first ones hold there |
| `Coherence.UniqueIsCoherent` | `livox_ws/src/livox_ros_driver2/3rdparty/rapidjson/document.h:1104-1105` | That is so of every value without repeated names, doubles or not |
| `Coherence.TransitiveIff` | `livox_ws/src/livox_ros_driver2/3rdparty/rapidjson/document.h:1136-1142` | For all values: two equalities in a chain give the third exactly when the numbers that meet in one place of the outer values are alike |
| `Coherence.TransitiveOnDoubleFree` | `livox_ws/src/livox_ros_driver2/3rdparty/rapidjson/document.h:1109-1147` | Without doubles equality is transitive, repeated names or not |
| `Coherence.RoundingBreaksChain` | `livox_ws/src/livox_ros_driver2/3rdparty/rapidjson/document.h:1137-1140` | With doubles it is not: two different integers equal the double that both round to |
| `Coherence.SymmetricIff` | `livox_ws/src/livox_ros_driver2/3rdparty/rapidjson/document.h:1115-1125` | For all double-free values, repeated names on either side: if a equals b, then b equals a exactly when b is coherent and every place that lookup finds in b is found in a |
| `Coherence.SymmetricIffUnique` | `livox_ws/src/livox_ros_driver2/3rdparty/rapidjson/document.h:1115-1125` | For all values, doubles included, one of which has no repeated names: if a equals b, then b equals a exactly when neither has any |
| `Coherence.RepeatedNamesMayBeEqual` | `livox_ws/src/livox_ros_driver2/3rdparty/rapidjson/document.h:1104-1105` | An object with a repeated name may equal itself and another that does not equal it back, against the comment that it is never equal |
| `Coherence.BothMayRepeat` | `livox_ws/src/livox_ros_driver2/3rdparty/rapidjson/document.h:1104-1105` | The same between two objects that both repeat names |
| `Coherence.RepeatedNamesMayDifferFromThemselves` | `livox_ws/src/livox_ros_driver2/3rdparty/rapidjson/document.h:1117-1123` | With repeated names a value may differ from itself |
| `RepeatedNames.EqualsSomethingIff` | `livox_ws/src/livox_ros_driver2/3rdparty/rapidjson/document.h:1104-1105` | The promise that an object with repeated names equals nothing, decided for every value and every partner, doubles included: a equals something exactly when, at every depth, all values it has in one place can share one partner: they are alike, or numbers with one double or one integer between them, and have no more names between them than one of them has members |
| `RepeatedNames.MeetWithoutDoubles` | `livox_ws/src/livox_ros_driver2/3rdparty/rapidjson/document.h:1136-1142` | Of values that hold no doubles at the top this asks that they are alike, or all integers that round to one double |
| `RepeatedNames.EverythingIsEqualled` | `livox_ws/src/livox_ros_driver2/3rdparty/rapidjson/document.h:1104-1105` | On the right-hand side the promise never holds: every value, whatever names it repeats, is equalled by some value, and by a double-free one if it is double-free |
| `RepeatedNames.EqualsAnotherOnly` | `livox_ws/src/livox_ros_driver2/3rdparty/rapidjson/document.h:1109-1125` | An object that equals another and yet not itself |
| `RepeatedNames.DoubleJoins` | `livox_ws/src/livox_ros_driver2/3rdparty/rapidjson/document.h:1136-1142` | An object that equals something, but nothing without doubles: under one name it holds two different integers that round to the same double |
| `PointerSpec.ParseStringifyRoundTrip` | `livox_ws/src/livox_ros_driver2/3rdparty/rapidjson/pointer.h:1013-1179` | Any text that parses as a pointer, stringified and parsed again, gives the same tokens, as a string always and as a URI fragment whenever there is one (sections 3 and 6 of RFC 6901) |
| `PointerSpec.StringifyParseRoundTrip` | `livox_ws/src/livox_ros_driver2/3rdparty/rapidjson/pointer.h:1151-1179` | The same for any token list whose indices belong to its names, with arbitrary bytes in the names |
| `PointerSpec.FragmentIffWellFormed` | `livox_ws/src/livox_ros_driver2/3rdparty/rapidjson/pointer.h:1166-1173` | A pointer has a fragment form exactly when all its names are well-formed UTF-8 |
| `PointerSpec.FragmentsHaveFragments` | `livox_ws/src/livox_ros_driver2/3rdparty/rapidjson/pointer.h:1050-1077` | A pointer read from a fragment can always be written as one |
| `PointerLaws.StringFormIff` | `livox_ws/src/livox_ros_driver2/3rdparty/rapidjson/pointer.h:1151-1179` | A text that is no fragment parses to a token list exactly when it is the text of that list and the indices belong to the names |
| `PointerLaws.NameByReplacing` | `livox_ws/src/livox_ros_driver2/3rdparty/rapidjson/pointer.h:1158-1165` | A written name gives back the name when first every "~1" becomes "/" and then every "~0" becomes "~" (section 4 of RFC 6901), and holds no solidus |
| `PointerLaws.FragmentIffDecoded` | `livox_ws/src/livox_ros_driver2/3rdparty/rapidjson/pointer.h:1054-1072` | A fragment that parses means what its percent-decoded text means as a string (section 6 of RFC 6901) exactly when no triplet in it stands for a solidus |
| `PointerLaws.EncodedSolidusStays` | `livox_ws/src/livox_ros_driver2/3rdparty/rapidjson/pointer.h:1054-1072` | A fragment where it does not: "#/a%2Fb" gives the one name "a/b" |
| `PointerLaws.RejectedFor` | `livox_ws/src/livox_ros_driver2/3rdparty/rapidjson/pointer.h:1013-1105` | Each error names what is wrong at its offset: no solidus at the beginning, a reserved character not encoded, a triplet that does not begin UTF-8, a tilde without 0 or 1 |
| `PointerLaws.OnlyReservedEncoded` | `livox_ws/src/livox_ros_driver2/3rdparty/rapidjson/pointer.h:1166-1173` | A written fragment has one percent sign for each reserved byte of a name, and no others |
| `PointerSpec.IndexOfNumeric` | `livox_ws/src/livox_ros_driver2/3rdparty/rapidjson/pointer.h:1113-1126` | The index of every numeric name of any length: the invalid mark if the low 32 bits shrink at some digit, else the low 32 bits of the number |
| `PointerSpec.IndexExact` | `livox_ws/src/livox_ros_driver2/3rdparty/rapidjson/pointer.h:1113-1126` | A numeric name below 2^32-1 is its own array index; 2^32-1 itself is the mark of a name that has none |
| `PointerSpec.OverflowNoticedIff` | `livox_ws/src/livox_ros_driver2/3rdparty/rapidjson/pointer.h:1118-1121` | A number of 2^32 or more is taken as only a name, as the comment promises, exactly when its low 32 bits shrink at some digit or end as the invalid mark |
| `PointerSpec.OverflowUnnoticed` | `livox_ws/src/livox_ros_driver2/3rdparty/rapidjson/pointer.h:1118-1121` | A number for which that fails: 10000000000 becomes index 1410065408 |
| `Pointer.GenericPointer.Parse` | `livox_ws/src/livox_ros_driver2/3rdparty/rapidjson/pointer.h:1013-1142` | The cursor loop fills one buffer of `length` units and a token array, and yields the specified tokens or the specified error and offset |
| `Pointer.ReadName` | `livox_ws/src/livox_ros_driver2/3rdparty/rapidjson/pointer.h:1047-1105` | All writes of a name, with its escapes and percent sequences, stay inside the buffer, also on error paths; the digits-only flag is right |
| `Pointer.DecodePercent` | `livox_ws/src/livox_ros_driver2/3rdparty/rapidjson/pointer.h:1054-1072` | A percent-encoded UTF-8 sequence is decoded in place; up to four units written by a failed validation still fit |
| `Pointer.TakeTriplet` | `livox_ws/src/livox_ros_driver2/3rdparty/rapidjson/pointer.h:1199-1222` | One %XY triplet, or NUL and an invalid mark |
| `Pointer.IndexOfName` | `livox_ws/src/livox_ros_driver2/3rdparty/rapidjson/pointer.h:1109-1126` | The digit loop with its 32-bit wrap and its leading-zero rule computes the index of a name |
| `Pointer.GenericPointer.Stringify` | `livox_ws/src/livox_ros_driver2/3rdparty/rapidjson/pointer.h:1151-1179` | The loops over tokens and units emit the specified text, and fail exactly on a name that is not UTF-8 |
| `Pointer.WriteName` | `livox_ws/src/livox_ros_driver2/3rdparty/rapidjson/pointer.h:1158-1176` | One name with ~0, ~1 and percent escapes |
| `PointerAccess.GetLocation` | `livox_ws/src/livox_ros_driver2/3rdparty/rapidjson/pointer.h:622-649` | The walk finds the location of the value, or the index of the first token that does not resolve |
| `PointerAccess.Tree.Create` | `livox_ws/src/livox_ros_driver2/3rdparty/rapidjson/pointer.h:539-585` | The walk that changes the tree in place computes the new tree, the location of the value and the flag |
| `PointerAccess.Descend` | `livox_ws/src/livox_ros_driver2/3rdparty/rapidjson/pointer.h:546-579` | One step of it: append, retype, pad with nulls, or add a member |
| `PointerAccess.ExistsIffResolves` | `livox_ws/src/livox_ros_driver2/3rdparty/rapidjson/pointer.h:531-537` | Create reports an existing value exactly when Get would have resolved it before, at the same location, and then changes nothing |
| `PointerAccess.ParsedDashIsNoIndex` | `livox_ws/src/livox_ros_driver2/3rdparty/rapidjson/pointer.h:1100-1126` | In every token list that was parsed, the name "-" has no array index, as the two lemmas on Create need |
| `PointerAccess.CreatedValue` | `livox_ws/src/livox_ros_driver2/3rdparty/rapidjson/pointer.h:534-537` | What Create returns is the existing value, or a new null |
| `PointerAccess.ResolvesAfterwards` | `livox_ws/src/livox_ros_driver2/3rdparty/rapidjson/pointer.h:539-585` | After Create, Get resolves to the value returned, unless "-" was applied to an array somewhere on the way, and then it does not resolve (section 4 of RFC 6901) |
| `PointerAccess.CreatedMakes` | `livox_ws/src/livox_ros_driver2/3rdparty/rapidjson/pointer.h:546-579` | At every depth, for the value met there: an index on a scalar leaves an array padded with nulls up to it; on an array the old elements, then nulls up to it; a name without an index on anything but an object an object with that one member; on an object the old members, and one more if the name is new; "-" on an array one element more; and the way goes on through the child for the token |
| `PointerAccess.ResolvesIffNamed` | `livox_ws/src/livox_ros_driver2/3rdparty/rapidjson/pointer.h:622-649` | Get follows a location exactly when each token names the next child on it: the element at its index, or the first member of its name |
| `PointerAccess.OthersUntouched` | `livox_ws/src/livox_ros_driver2/3rdparty/rapidjson/pointer.h:551-578` | Every old location off the pointer's path and not under a container whose type was replaced keeps its value; on the path it keeps its name |
| `PoolAllocator.MemoryPoolAllocator.Malloc` | `livox_ws/src/livox_ros_driver2/3rdparty/rapidjson/allocators.h:208-220` | Keeps all blocks in use 8-aligned, inside their chunk and pairwise disjoint; the new block is none of them, all others stay; it fails exactly for size zero or when a chunk is needed and refused; it takes the next bytes of the head where they fit, and else the first of one new chunk of the larger of the chunk capacity and the size |
| `PoolAllocator.MemoryPoolAllocator.Realloc` | `livox_ws/src/livox_ros_driver2/3rdparty/rapidjson/allocators.h:223-253` | Shrinking in place, growing at the end of the head and moving all keep the bytes that both sizes have in common, change no other block, and keep the blocks disjoint; a failure changes no block; which of the three is taken is decided by the sizes and by whether the block is the last of the head with room behind it |
| `PoolAllocator.MemoryPoolAllocator.MoveTo` | `livox_ws/src/livox_ros_driver2/3rdparty/rapidjson/allocators.h:247-252` | A moved block has the old contents and lies apart from every other block |
| `PoolAllocator.MemoryPoolAllocator.Extend` | `livox_ws/src/livox_ros_driver2/3rdparty/rapidjson/allocators.h:236-245` | A block that ends at the mark of the head can grow without touching another |
| `PoolAllocator.MemoryPoolAllocator.LastIsInHead` | `livox_ws/src/livox_ros_driver2/3rdparty/rapidjson/allocators.h:236-239` | The address comparison that recognises the last block never mistakes a block of another chunk for it |
| `PoolAllocator.MemoryPoolAllocator.NextIsFree` | `livox_ws/src/livox_ros_driver2/3rdparty/rapidjson/allocators.h:216-218` | The bytes after the mark of the head belong to no block in use |
| `PoolAllocator.MemoryPoolAllocator.AddChunk` | `livox_ws/src/livox_ros_driver2/3rdparty/rapidjson/allocators.h:268-281` | A new chunk is put in front of the list and no block moves |
| `PoolAllocator.MemoryPoolAllocator.Clear` | `livox_ws/src/livox_ros_driver2/3rdparty/rapidjson/allocators.h:178-186` | All chunks are given back but the user's buffer, which is emptied |
| `PoolAllocator.MemoryPoolAllocator.Size` | `livox_ws/src/livox_ros_driver2/3rdparty/rapidjson/allocators.h:201-205` | The bytes in use over all chunks, never more than the capacity |
| `PoolAllocator.MemoryPoolAllocator.Capacity` | `livox_ws/src/livox_ros_driver2/3rdparty/rapidjson/allocators.h:191-196` | The capacity of all chunks together |
| `PoolAllocator.MemoryPoolAllocator.WithBuffer` | `livox_ws/src/livox_ros_driver2/3rdparty/rapidjson/allocators.h:153-167` | A user's buffer becomes the first chunk, its header taken off the capacity |
| `PoolAllocator.ResizedByMove` | `livox_ws/src/livox_ros_driver2/3rdparty/rapidjson/allocators.h:248-250` | Copying into a free block keeps the common prefix and leaves every other block as it was |
| `PoolAllocator.SizeWithinCapacity` | `livox_ws/src/livox_ros_driver2/3rdparty/rapidjson/allocators.h:201-205` | Over any list of sound chunks the size is at most the capacity |
| `HexSearch.Search.Run` | `luckrobot_ws/src/nav2_custom_planner/src/nav2_custom_planner.cpp:72-121` | For every costmap, start, goal and pop order the search ends, and reports a path if and only if the goal is the start or reachable through steps into valid cells; the chain reported is such a path from start to goal, repeats no cell, and its stored cost is the sum over its steps |
| `HexSearch.Search.Expand` | `luckrobot_ws/src/nav2_custom_planner/src/nav2_custom_planner.cpp:87-120` | All six neighbours are tried: each valid one is closed or queued afterwards |
| `HexSearch.Search.Pop` | `luckrobot_ws/src/nav2_custom_planner/src/nav2_custom_planner.cpp:80` | Whichever entry is taken, the others stay |
| `HexSearch.Search.Close` | `luckrobot_ws/src/nav2_custom_planner/src/nav2_custom_planner.cpp:81-83` | The index of a cell marks that cell and no other |
| `HexSearch.Exhausted` | `luckrobot_ws/src/nav2_custom_planner/src/nav2_custom_planner.cpp:79-86` | When the queue is empty and every step out of a closed cell leads to a closed cell, a goal that is not closed is unreachable |
| `HexSearch.SoundExtends` | `luckrobot_ws/src/nav2_custom_planner/src/nav2_custom_planner.cpp:88-117` | Extending a chain by an open neighbour keeps it a route without repeats |
| `HexSearch.CostExtends` | `luckrobot_ws/src/nav2_custom_planner/src/nav2_custom_planner.cpp:97-114` | The cost pushed is the cost of the longer route: one per step, the safety penalty of the cell entered, three per turn |
| `HexGrid.StepIffAdjacent` | `luckrobot_ws/src/nav2_custom_planner/src/nav2_custom_planner.cpp:44-47` | With the rows of even number shifted half a cell to the right, a step leads exactly to the valid cells side by side in a row and half a cell apart in the rows above and below |
| `HexGrid.ValidIffCheap` | `luckrobot_ws/src/nav2_custom_planner/src/nav2_custom_planner.cpp:31-42` | A cell can be entered exactly when it is in the map at a cost of at most 252, and be seen through at a cost of at most 179 |
| `HexGrid.RouteCostIs` | `luckrobot_ws/src/nav2_custom_planner/src/nav2_custom_planner.cpp:97-114` | The cost of a route is its number of steps, three for each change of direction, and the squares of the costs entered, scaled so that 254 counts a hundred |
| `HexGrid.StepBack` | `luckrobot_ws/src/nav2_custom_planner/src/nav2_custom_planner.cpp:44-47` | The neighbourhood is symmetric although the offset table depends on the row |
| `HexGrid.StepsDoNotWrap` | `luckrobot_ws/src/nav2_custom_planner/src/nav2_custom_planner.cpp:88-91` | Unsigned wrap-around at the border never leads into the map |
| `HexGrid.IndexInjective` | `luckrobot_ws/src/nav2_custom_planner/src/nav2_custom_planner.cpp:81` | Two cells of the map never share an index of the closed list |
| `PathSmoothing.HasLineOfSight` | `luckrobot_ws/src/nav2_custom_planner/src/nav2_custom_planner.cpp:49-55` | A line is clear exactly when all its cells are known and cost less than 180 |
| `PathSmoothing.NextIndex` | `luckrobot_ws/src/nav2_custom_planner/src/nav2_custom_planner.cpp:141-148` | The downward scan finds the farthest visible cell, or the next one |
| `PathSmoothing.Smooth` | `luckrobot_ws/src/nav2_custom_planner/src/nav2_custom_planner.cpp:135-151` | The loop ends; the first and last cells are kept, and each cell picked is the farthest visible from the one before, or its successor |
| `PathSmoothing.FarthestIsUnique` | `luckrobot_ws/src/nav2_custom_planner/src/nav2_custom_planner.cpp:141-148` | That choice is unique, so the smoothed path is determined by the route |
| `PathSmoothing.SmoothedIsOrdered` | `luckrobot_ws/src/nav2_custom_planner/src/nav2_custom_planner.cpp:140-151` | Picked indices strictly increase and stay in the route |
| `PathSmoothing.Interpolate` | `luckrobot_ws/src/nav2_custom_planner/src/nav2_custom_planner.cpp:153-165` | The nested loops insert the points of every stretch and the last point |
| `PathSmoothing.InterpolationKeepsPoints` | `luckrobot_ws/src/nav2_custom_planner/src/nav2_custom_planner.cpp:153-165` | Every smoothed point is in the interpolated path, in order, the ends at the ends |
| `PathSmoothing.InterpolationIsSpaced` | `luckrobot_ws/src/nav2_custom_planner/src/nav2_custom_planner.cpp:156-161` | With a positive resolution neighbouring points are no farther apart than it |
| `PathSmoothing.CountIsLeast` | `luckrobot_ws/src/nav2_custom_planner/src/nav2_custom_planner.cpp:157` | No smaller number of pieces would keep them within the resolution |
| `PathSmoothing.PinnedIsSpaced` | `luckrobot_ws/src/nav2_custom_planner/src/nav2_custom_planner.cpp:168-174` | Overwriting the two ends lengthens only the first and the last stretch, and each by no more than its end was moved |
| `PathSmoothing.NegativeResolution` | `luckrobot_ws/src/nav2_custom_planner/src/nav2_custom_planner.cpp:157` | With a negative resolution nothing is inserted at all |
| `CustomPlanner.Planner.Backtrack` | `luckrobot_ws/src/nav2_custom_planner/src/nav2_custom_planner.cpp:124-133` | Following the parents and reversing gives the chain from start to goal |
| `CustomPlanner.Planner.CreatePlan` | `luckrobot_ws/src/nav2_custom_planner/src/nav2_custom_planner.cpp:57-178` | Exceptions come exactly from a wrong frame, a position off the map, or an unreachable goal; a path comes from a route without repeats by smoothing and interpolation, and ends at the exact goal; it starts at the exact start unless both lie in one cell, and is then the goal alone; with a positive resolution, neighbours in a path of more than two poses are no farther apart than it, plus, on the first and last stretch, the distance of start or goal from the centre of its cell |
| `CustomPlanner.Planner.ShortRoutes` | `luckrobot_ws/src/nav2_custom_planner/src/nav2_custom_planner.cpp:135-172` | A route of one cell or two is not smoothed or interpolated: the path is the goal, or the start and the goal |
| `ImuLidarSync.Packager.StandardScan` | `mid360s_ws/src/FAST_LIO_ROS2/src/laserMapping.cpp:283-307` | A scan and its time are buffered; a clock that went back clears the scans, but not the times |
| `ImuLidarSync.Packager.LivoxScan` | `mid360s_ws/src/FAST_LIO_ROS2/src/laserMapping.cpp:311-348` | The same, and the clock shift is fixed once |
| `ImuLidarSync.Packager.ImuSample` | `mid360s_ws/src/FAST_LIO_ROS2/src/laserMapping.cpp:350-379` | A sample is restamped and buffered; a clock that went back clears the samples |
| `ImuLidarSync.Packager.SyncPackages` | `mid360s_ws/src/FAST_LIO_ROS2/src/laserMapping.cpp:383-434` | The timer step takes up a scan, waits for samples beyond its end, and cuts a package |
| `ImuLidarSync.Packager.TakeScan` | `mid360s_ws/src/FAST_LIO_ROS2/src/laserMapping.cpp:391-413` | The end of the scan and the running mean, by the number of points and the half-mean rule |
| `ImuLidarSync.Packager.CutSamples` | `mid360s_ws/src/FAST_LIO_ROS2/src/laserMapping.cpp:421-429` | The loop moves the specified prefix of the buffer into the package |
| `ImuLidarSync.CutSplits` | `mid360s_ws/src/FAST_LIO_ROS2/src/laserMapping.cpp:421-429` | A package takes every buffered sample before its scan's end, none after it, and at most one, its last, exactly at it |
| `ImuLidarSync.PackageIsComplete` | `mid360s_ws/src/FAST_LIO_ROS2/src/laserMapping.cpp:415-433` | In every reachable state the package that goes out and the buffer that stays are the old buffer, split at the scan's end |
| `ImuLidarSync.NextKeeps` | `mid360s_ws/src/FAST_LIO_ROS2/src/laserMapping.cpp:283-434` | In every interleaving the sample buffer stays sorted, samples are conserved, times and scans stay in step up to what was cleared, and the mean is the average |
| `ImuLidarSync.RunKeeps` | `mid360s_ws/src/FAST_LIO_ROS2/src/laserMapping.cpp:283-434` | That holds after every sequence of callbacks and timer steps |
| `ImuLidarSync.SamplesPassInOrder` | `mid360s_ws/src/FAST_LIO_ROS2/src/laserMapping.cpp:350-434` | Received samples are delivered samples followed by buffered ones exactly when no buffered sample was cleared |
| `ImuLidarSync.PackagesPairedUnlessCleared` | `mid360s_ws/src/FAST_LIO_ROS2/src/laserMapping.cpp:418-431` | While no scan was cleared, the k-th package holds the k-th scan with that scan's own time, and the remaining scans are waiting |
| `ImuLidarSync.PackagesPairedIff` | `mid360s_ws/src/FAST_LIO_ROS2/src/laserMapping.cpp:292-295` | In every run the k-th package begins at the stamp of the k-th scan received and holds the scan that came as many later as had been cleared when it was taken up; it begins at its own scan's stamp exactly when these two stamps agree |
| `ImuLidarSync.PackagePairedIffNothingCleared` | `mid360s_ws/src/FAST_LIO_ROS2/src/laserMapping.cpp:292-295` | If no two scans share a stamp, a package begins at its own scan's time exactly when nothing had been cleared before that scan was taken up |
| `ImuLidarSync.NextPackagePairedIff` | `mid360s_ws/src/FAST_LIO_ROS2/src/laserMapping.cpp:391-400` | The same condition for the scan about to be taken up, seen in the state before |
| `ImuLidarSync.ClearingMispairs` | `mid360s_ws/src/FAST_LIO_ROS2/src/laserMapping.cpp:292-295` | A LiDAR clock that goes back does break the pairing: a run in which a package starts at the time of a scan that was thrown away |
| `ImuLidarSync.ForwardScansAreKept` | `mid360s_ws/src/FAST_LIO_ROS2/src/laserMapping.cpp:292-318` | In every run in which the stamps of arriving scans do not decrease, no scan is ever cleared |
| `ImuLidarSync.ShiftLossExact` | `mid360s_ws/src/FAST_LIO_ROS2/src/laserMapping.cpp:328-369` | In every run in which the stamps of arriving samples do not decrease, the samples lost are exactly those buffered when the first sample after the fixing of the clock shift falls below the sample before it |
| `ImuLidarSync.ForwardSamplesLostIff` | `mid360s_ws/src/FAST_LIO_ROS2/src/laserMapping.cpp:350-434` | With such samples, received is delivered followed by buffered exactly when the first sample after the shift does not fall below the sample before, or nothing is buffered then |
| `ImuLidarSync.ForwardClocksLoseNothing` | `mid360s_ws/src/FAST_LIO_ROS2/src/laserMapping.cpp:283-379` | Without time synchronisation, nothing is cleared and received is delivered followed by buffered in every run in which neither clock goes back |
| `ImuLidarSync.TimeSyncLosesSamples` | `mid360s_ws/src/FAST_LIO_ROS2/src/laserMapping.cpp:328-369` | With it both clocks may go forward and a sample is lost: a run |
| `PackagerLaws.PackagesEnd` | `mid360s_ws/src/FAST_LIO_ROS2/src/laserMapping.cpp:397-413` | In every run each package ends at its begin plus its last point's offset in seconds, if the scan has more than one point and that is not below half the average of the durations believed before; otherwise plus that average. The durations believed are said by the scans alone |
| `PackagerLaws.TimerCuts` | `mid360s_ws/src/FAST_LIO_ROS2/src/laserMapping.cpp:383-434` | In every run the timer does nothing without a scan and a sample; otherwise a package goes out exactly when the last sample received is not before the end of its scan, it splits the buffer there, and one scan and one time are dropped |
| `PackagerLaws.SamplesStamped` | `mid360s_ws/src/FAST_LIO_ROS2/src/laserMapping.cpp:328-361` | In every run the samples received carry their own stamp less the fixed offset, or plus the shift once that is fixed: by the first Livox scan more than a second off the last sample while samples are buffered, a tenth of a second behind the scan |
| `PackagerLaws.SampleKept` | `mid360s_ws/src/FAST_LIO_ROS2/src/laserMapping.cpp:362-374` | A sample goes behind those buffered; they are thrown away exactly when its stamp is below that of the sample received before |
| `PackagerLaws.ScanKept` | `mid360s_ws/src/FAST_LIO_ROS2/src/laserMapping.cpp:283-307` | A scan goes behind those buffered; they are thrown away exactly when its stamp is below that of the scan received before, and its time is kept in either case |
| `ImuLidarSync.MeanDurationIsAverage` | `mid360s_ws/src/FAST_LIO_ROS2/src/laserMapping.cpp:405-407` | The running mean equals the average of all accepted durations |
| `LivoxHandshake.Device.InfoChange` | `livox_ws/src/livox_ros_driver2/src/call_back/livox_lidar_callback.cpp:55-110` | Exactly the requested settings get their bit and a request with the configured value; attitude, work mode and IMU always get a request |
| `LivoxHandshake.Device.SettingCallback` | `livox_ws/src/livox_ros_driver2/src/call_back/livox_lidar_callback.cpp:126-256` | Success clears the bit and the last one starts sampling; a timeout sends the same request again; a failure does neither, and reads a response that is not there when the answer carries none |
| `LivoxHandshake.Device.AttitudeCallback` | `livox_ws/src/livox_ros_driver2/src/call_back/livox_lidar_callback.cpp:258-288` | Only a timeout is retried |
| `LivoxHandshake.Device.WorkModeCallback` | `livox_ws/src/livox_ros_driver2/src/call_back/livox_lidar_callback.cpp:112-124` | Anything but success is retried |
| `LivoxHandshake.Device.ImuCallback` | `livox_ws/src/livox_ros_driver2/src/call_back/livox_lidar_callback.cpp:290-316` | A timeout is retried only when it carries a response |
| `LivoxHandshake.RequestsCarryFields` | `livox_ws/src/livox_ros_driver2/src/call_back/livox_lidar_callback.cpp:59-91` | In every run a request carries the field of the configuration that it is for, dual emission as 0 or 1, and that field is not -1 |
| `LivoxHandshake.AnnouncementSends` | `livox_ws/src/livox_ros_driver2/src/call_back/livox_lidar_callback.cpp:57-110` | An announcement sends exactly one request for each field that is not -1, and the attitude, the work mode and the IMU; it raises the bits 1, 2, 4 and 8 of these fields and changes nothing else |
| `LivoxHandshake.InFlightIffSet` | `livox_ws/src/livox_ros_driver2/src/call_back/livox_lidar_callback.cpp:59-91` | After an announcement in any run the request for a field is in flight exactly when the field is not -1 |
| `LivoxHandshake.SettingAnswered` | `livox_ws/src/livox_ros_driver2/src/call_back/livox_lidar_callback.cpp:137-156` | In every run a time-out of a setting changes nothing, since the same request is in flight again; a failure takes its request away; a success clears its bit too, and starts sampling when no bit is left |
| `LivoxHandshake.CommonAnswered` | `livox_ws/src/livox_ros_driver2/src/call_back/livox_lidar_callback.cpp:112-124` | In every run the attitude is asked for again after a time-out, the work mode after anything but success, the IMU after a time-out with a response |
| `LivoxHandshake.ParsedIs` | `livox_ws/src/livox_ros_driver2/src/parse_cfg_file/parse_livox_lidar_cfg.cpp:75-94` | What the configuration keeps of a field is its low byte as a signed one |
| `LivoxHandshake.NextKeeps` | `livox_ws/src/livox_ros_driver2/src/call_back/livox_lidar_callback.cpp:57-316` | Every announcement and answer keeps: a raised bit is requested and in flight unless one failed since the last announcement, requests carry configured values, the work mode is set or in flight |
| `LivoxHandshake.RunKeeps` | `livox_ws/src/livox_ros_driver2/src/call_back/livox_lidar_callback.cpp:57-316` | That holds after every interleaving of announcements, acknowledgements, timeouts and retries |
| `LivoxHandshake.SamplingIsEarned` | `livox_ws/src/livox_ros_driver2/src/call_back/livox_lidar_callback.cpp:137-142` | A device samples only after each requested setting has succeeded at least once, and never if none was requested |
| `LivoxHandshake.PendingIsInFlight` | `livox_ws/src/livox_ros_driver2/src/call_back/livox_lidar_callback.cpp:59-91` | Every pending bit belongs to a requested setting and has a request in flight, unless one failed since the last announcement; an announcement puts all of them in flight again |
| `LivoxHandshake.QuietDeviceSamplesIff` | `livox_ws/src/livox_ros_driver2/src/call_back/livox_lidar_callback.cpp:137-142` | Once all answers are in and none since the last announcement was a failure, an announced device samples if and only if some setting was requested |
| `LivoxHandshake.ClearHas` | `livox_ws/src/livox_ros_driver2/src/call_back/livox_lidar_callback.cpp:139-140` | Clearing a bit with the complement mask clears that setting and no other |
| `LivoxHandshake.RequestedIff` | `livox_ws/src/livox_ros_driver2/src/parse_cfg_file/parse_livox_lidar_cfg.cpp:75-94` | A field of the configuration file is applied unless it is absent or its low byte reads as -1 |

## Left out

JSON engine

- Conversion between decimal literals and doubles, in both directions, with NaN, infinities and full precision: the reader takes the conversion as a parameter, the writer does not print doubles, and equality takes the rounding of integers as a parameter.
- Error codes and offsets of the reader (the two parsers report different ones for the same text), and handlers that return false.
- Codec.Validate: when a sequence is cut off by the end of the text, the source goes on to take bytes behind the terminator; the model shows NUL there. Acceptance and the bytes copied on success do not depend on it.
- Codec.Decode: the same holds for the position after a failed decoding at the end of the text.
- Parsing in place reads numbers and words by the grammar; their loops are those of `Reader`.
- The flags for validating encodings, for numbers as strings and for NaN and infinities; encodings of the text other than UTF-8.
- `IterativeParseNext`, the SIMD variants, stream wrappers, and the limit of the native stack on nesting.
- The 32-bit width of member counts, element counts and string lengths.
- Storage of values: unions, short strings, copying and moving, and who owns memory. Values are immutable trees here.
- `Document.GenericDocument.ParseStream` replays the reader's events after it has finished, not while it runs.
- Of JSON Pointers: copying, comparing, appending, `Set`, `Swap`, `Erase` and default values; units wider than a byte; a text of length zero that is not terminated.
- In-place update of the tree in `PointerAccess.Tree.Create` is by location, not by address; `Reserve` and running out of memory are not modelled.
- `PoolAllocator` takes the base allocator's answer as a parameter (memory apart from all chunks in use, aligned to eight), a header size of 24, and sizes that do not overflow; it keeps addresses and contents, not pointers into them.

Planner

- The heuristic and the order by estimated cost, since every order is allowed. Optimality is not claimed: the heuristic is not admissible on diagonal steps and closed cells ignore the direction they were entered from.
- World-to-map conversion, the cells of a line and the length of a vector are parameters: a cell's centre converts back to the cell, a line is a finite list of cells, and a length is known by its square. Rounding and the conversion of a very large point count to an int are not modelled.
- A resolution of zero, which would divide by zero, is excluded; cell indices must fit an int.
- Messages, time stamps, frames of intermediate poses and orientations.

Packager

- Stamps are exact reals: rounding to nanoseconds is not modelled. Scans arrive as preprocessed, with their points' offsets. Plots, prints and counters are left out.
- Each callback and each timer step is one step; interleavings inside a step are not modelled.

Handshake

- Devices missing from the configuration, and the cache that gives devices their slots.
- LivoxHandshake.Device.SettingCallback: reports that the source reads a response that is not there, on a failure without a response; what such a read does is not modelled, and the state machine goes on.
- The SDK itself: a request stays in flight until it is answered, and answers are later steps, never calls from inside a handler. The values of the installation attitude, prints, and the other place that sets the sampling state when playing recorded files.
