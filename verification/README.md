# Verified models of the Elasticsearch ODBC driver

A Dafny model of the parts of the driver whose correctness rests on arithmetic, parsing, buffers and
state, with proofs of what they are for. `dafny verify dfyconfig.toml` checks all of it.

**Intervals** (`Intervals`, `IsoParser`, `IsoNumbers`, `IsoGrammar`, `IsoShapes`, `IsoMeaning`,
`Rebalancing`, `IsoInputs`, `IsoPrinter`, `IsoRoundTrip`, `SqlPrinter`, `SqlMeanings`, `SqlLiterals`,
`SqlGrammar`, `SqlParser`, `SqlRoundTrip`). The server sends durations in ISO 8601; the driver turns them
into one of 13 ODBC interval types, prints those as ISO or SQL text, and parses SQL interval literals. Each
parser is proved to accept exactly the texts of a grammar said without it, and to store what their digits
denote exactly under a condition on the text; each printer is undone by its parser exactly under a test on
the value.

**Result sets** (`Paging`, `Pieces`, `Statements`). Rowsets of any size are filled from pages linked by
cursors, and long strings are got in pieces. The server is a function from request numbers to answers, so
the statements hold for every stream of pages, empty pages, unreadable answers and refusals.

**Requests** (`JsonText`, `Json`, `Requests`, `RequestWriter`, `RequestMeanings`, `RequestsAsGiven`). A
length pass, a writing pass, and an escaper that also works in place. The body is proved to fit the length
counted before, and to be the JSON text of the object that was meant exactly if nothing stale is sent.

**Connection strings** (`ConnStrings`, `ConnGrammar`, `ConnRoundTrip`, `ConnFailures`, `Dsn`). Two textual formats
for 37 attributes. The parser is proved to read exactly the texts of a grammar said character by character, and
to restore the attributes exactly if every value is writable.

**Small cores** (`Wrappers`, `Decimals`, `Integers`, `Buffers`, `ReceiveBuffer`, `Bignum`, `Patterns`, `Markers`).

Methods follow the loops, buffers and structures of the C code and are proved against functions; the lemmas
are about those functions. Machine widths are written out: 64-bit wrap-around in the integer parser and the
powers of ten, 32-bit fields and products, the 16-bit marker count and the 8-bit sign counter. `SQLUINTEGER`
is 32 bits wide, as on Windows.

## Where the code does less than it says

Each of these is proved, with the condition under which the promise does hold.

- An ISO value does not always survive printing and parsing: `-0.5` seconds loses its sign, a zero YEAR
  interval prints nothing, and a value with a zero field is rebalanced in 32 bits. The condition is
  `IsoRoundTrip.Survives`.
- The ISO number -2^63 passes the range check of 32 bits and is stored as zero: `P-9223372036854775808D` is no
  days (`IsoInputs.DaysVanish`). What a text denotes is stored exactly if no number in it is that one
  (`Rebalancing.ExactFieldsConserve`, `IsoMeaning.LossIsVanishing`). A `-` before a whole part of zero is not
  noticed (`IsoShapes.SignAsWritten`).
- The number syntax is wider than ISO 8601's: `++5`, `.5`, and `1.+5`, whose `+` counts as a zero
  (`IsoNumbers.NumberReads`).
- Rebalancing conserves time only while the total is below 2^32 seconds: the products wrap before the
  checked additions (`Rebalancing.RebalancingConservesTime`, `IsoRoundTrip.MinutesWrap`).
- Years and days, and months and hours, share storage, and the later number overwrites: `P1Y2D` read as a DAY
  interval is two days, `P2D1Y` one. What is stored of any such text, and when it is parsed at all, is
  `Rebalancing.StorageIsConserved`, with `IsoMeaning.LastWins` (`IsoInputs.LaterOverwrites`).
- A fraction in a type without seconds is refused only if the last number has it: `PT1.500000S2M` read as HOUR
  TO MINUTE keeps a fraction of 500000 if its record has a precision (`Rebalancing.FractionRefused`,
  `IsoInputs.FractionSlipsIn`). So is truncation reported of the last number only, and for `P` and `PT`, which
  are parsed as zero, the return code and the fraction flag are never set; the flag is taken as "no fraction"
  (`Rebalancing.ReturnCode`, `IsoInputs.NothingIsParsed`).
- The branch for MINUTE is commented as taking DAY and HOUR TO MINUTE; an unknown word before TO MINUTE falls
  through to the next case, so that `'5' MONTH TO MINUTE` is 5 months and `'5-3' YEAR TO MONTH TO MINUTE` five
  years and three months. Which qualifiers are taken is `SqlGrammar.QualifierIff`
  (`SqlRoundTrip.ToMinuteIsPassedOver`).
- A narrow string parameter given by a length of 0 is not sent as an empty string, but as what is left in its
  buffer up to a NUL, past the length check (`RequestsAsGiven.SentAsGiven`, `RequestsAsGiven.BodyMeans`,
  `RequestsAsGiven.StaleKeyword`). If no NUL is left in it, the code reads past the buffer
  (`RequestsAsGiven.EmptyReadsOn`); the serialiser is modelled for parameters it can read.
- `json_escape_overlapping` is documented to take a length of 0 for a NUL-terminated string, but then escapes
  the text behind its room. As no caller has a copy of its text there, in practice a length of 0 never gives
  the documented result, unless both are empty (`JsonText.ZeroLengthReadsBehind`, `JsonText.WrongTextInPlace`).
- Rows that a fetch has visited before it fails are lost to the application. Which answers make it drop rows is
  `Paging.DropsIff`, when it is at risk at all `Paging.CanDrop`, and that nothing else is lost
  `Paging.EveryRowDelivered` (`Paging.RowIsLost`).
- Parameter markers are counted in 16 bits: a query with 32768 to 65535 of them counts as having none and is
  executed early (`Statements.EarlyQueries`).
- An empty page with a cursor ends a fetch with "no data", although the next fetch goes on. When "no data" is
  final, and when it means that all rows were fetched, are `Paging.NoMoreIsFinal` and
  `Paging.NoMoreMeansAll` (`Paging.EmptyPageEndsFetch`).
- A maximum length leaves a copied piece without its terminator (`Pieces.TerminatedIff`).
- Braces within a value that needs braces are not escaped, so such values are not restored
  (`ConnFailures.ConnStringRestores`).
- A list whose entries fill the room exactly has its last NUL written past it, and one without any room is
  written all the same; the code only asserts that this does not happen (`Dsn.Attributes.WriteList`,
  `ConnStrings.ListOverruns`, `ConnStrings.ShortListOverruns`).
- If the first chunk of an answer is empty, its terminator is written through a null pointer
  (`ReceiveBuffer.Receiver.Receive`).

## Model

| member | source | states |
|---|---|---|
| `Decimals.PowerOfTen` | driver/convert.c:719-727 | the shift and the `n` additions give 10^n in 64-bit wrapping arithmetic, and 10^n itself up to n = 19 |
| `Decimals.TwosAndFives` | driver/convert.c:719-727 | the invariant behind the shift-and-add form: 2^n times 5^n is 10^n |
| `Decimals.WrappedStaysLarge` | driver/convert.c:719-727 | past 10^19 the wrapped power is still larger than any 32-bit number |
| `Decimals.WrappedDivides` | driver/convert.c:2011-2028 | so dividing a 32-bit fraction by the wrapped power is dividing it by the power, for every shift C defines |
| `Decimals.RescaleIsFloor` | driver/convert.c:2011-2028 | the scaled fraction is the floor of value * 10^(precision - digits) |
| `Decimals.TrailingZerosAreIgnored` | driver/convert.c:2011-2028 | a fraction written with any number of extra trailing zeros is stored as the same number |
| `Decimals.RescaledFits` | driver/convert.c:2011-2028 | a fraction of `have` digits scales to one within the precision: the sanity assert after the call holds |
| `Decimals.PrintDenotes` | driver/util.c:216-225 | the printed decimal text denotes the number it was printed from |
| `Integers.Str2UBigInt` | driver/util.c:29-91 | the wrapping accumulation loop reads exactly what the digits denote: count, value, or the kind of rejection |
| `Integers.FewDigits` | driver/util.c:29-91 | the first 19 positions, which the loop does not check, cannot overflow 64 bits |
| `Integers.OverflowIsFinal` | driver/util.c:29-91 | once the digits read pass 2^64 - 1 the number is out of range whatever follows, so the loop may stop |
| `Integers.OutOfRangeIff` | driver/util.c:29-91 | a number is rejected as out of range exactly if digits in front exceed 2^64 - 1, whatever follows them |
| `Integers.StrictUnsigned` | driver/util.c:29-91 | strict reading succeeds exactly on the numerals up to 2^64 - 1, of any length, and consumes them whole |
| `Integers.Str2BigInt` | driver/util.c:93-159 | the signed reader: sign, magnitude, both 64-bit bounds, and the lone sign that is rejected |
| `Integers.StrictSigned` | driver/util.c:93-159 | strict signed reading succeeds exactly on the numerals of [-2^63, 2^63 - 1] and returns their value; the others are out of range, and what is no numeral is only if its digits are |
| `Intervals.MixedRadixIsUnique` | driver/convert.c:2299-2345 | two mixed-radix values of one type and one duration have the same fields |
| `IsoParser.AdjustToPrecision` | driver/convert.c:2011-2028 | scaling by the 64-bit powers gives the exact scaled value; truncation is reported whenever digits are not fewer than the precision |
| `IsoNumbers.NumberReads` | driver/convert.c:2030-2097 | the number scanner takes exactly the numbers of a written syntax - a sign, a second `+`, digits, a point, decimals - that are within 32 bits, or are -2^63; it holds the value of the digits (0 for -2^63), the sign of a whole part that is not zero, and the decimals at the record's precision |
| `IsoParser.Scan` | driver/convert.c:2190-2278 | the loop terminates on every text, on (characters left, not after a number), and ends in the state of the whole scan; its 8-bit sign counter never wraps |
| `IsoParser.SignFitsChar` | driver/convert.c:2086-2092 | the counter of signs stays within a C char: at most one more number than fields |
| `IsoParser.AddSafely` | driver/convert.c:2171-2178 | each product is added to the sum, or overflow reported, as the checked addition does |
| `IsoParser.Divide` | driver/convert.c:2303-2344 | taking one field at a time gives the quotients and remainders of the whole number of seconds, for every type |
| `IsoParser.Rebalance` | driver/convert.c:2287-2345 | the checked additions and the divisions store the balanced value, or report overflow, or a fraction that the type cannot hold and the last number has |
| `IsoParser.ParseInterval` | driver/convert.c:2108-2356 | the whole parser: malformed, overflow, or the interval and the last number's code |
| `IsoGrammar.ScanDuration` | driver/convert.c:2190-2278 | a duration that its items make sense of, one after the other, is accepted by the scanner, with the state they give in turn |
| `IsoGrammar.Parse` | driver/convert.c:2190-2278 | every text the scanner accepts is the rendering of a duration that its items make sense of |
| `IsoShapes.Accepts` | driver/convert.c:2190-2278 | the scanner makes sense of exactly the well-formed durations, said without it: a P, at most one T, numbers and designators in their half, none twice, a point only before S, one sign; the fields set are those named, and the sign is that of the numbers |
| `IsoShapes.AcceptedTexts` | driver/convert.c:2190-2278 | a text is accepted exactly if it is a well-formed duration |
| `IsoShapes.SignAsWritten` | driver/convert.c:2075-2092 | the sign is the one written on all numbers exactly if no `-` is before a whole part of zero |
| `IsoMeaning.StoredAsWritten` | driver/convert.c:2190-2278 | of each slot of the union the last number that goes there is stored, whatever the fields; the fraction, the fraction flag and the return code are those of the text |
| `IsoMeaning.LastWins` | driver/convert.c:2230-2278 | the number in a slot is that of the last item naming one of the slot's fields |
| `IsoMeaning.ScannerHoldsMeaning` | driver/convert.c:2030-2278 | the fields scanned of a text of one scale, and the numbers that vanish, add up to the months or seconds its digits denote |
| `IsoMeaning.LossIsVanishing` | driver/convert.c:2075-2085 | nothing is lost of that amount exactly if no number is a `-` before 2^63; what is lost is at least 2^63 |
| `Rebalancing.CheckedSumIsExact` | driver/convert.c:2294-2297 | the checked sum is exact while the total fits 32 bits; past that it overflows, or has lost a multiple of 2^32 to a product that wrapped |
| `Rebalancing.BalancedIsFloor` | driver/convert.c:2299-2345 | what is stored is mixed radix and denotes the seconds cut to the type's smallest field |
| `Rebalancing.ExactFieldsConserve` | driver/convert.c:2108-2356 | a value whose designators are the type's fields is parsed, and stored as its digits say, whatever its size, exactly if no number in it is a `-` before 2^63 |
| `Rebalancing.ParsesAsUnderstood` | driver/convert.c:2108-2356 | the parser's outcome for every well-formed duration and every type, from its items alone |
| `Rebalancing.OthersAreMalformed` | driver/convert.c:2108-2356 | any text that is no well-formed duration is refused |
| `Rebalancing.ParsedFields` | driver/convert.c:2347-2354 | a text that is not rebalanced is parsed exactly if it names no fields but those of the type |
| `Rebalancing.StorageIsConserved` | driver/convert.c:2287-2345 | whatever fields are set, years over days and months over hours: a value to be rebalanced is parsed exactly if the checked sum of its storage holds and the last number has no point the type cannot hold; it is in mixed radix, and is the time in storage exactly if that fits 32 bits |
| `Rebalancing.FractionRefused` | driver/convert.c:2302-2311 | of a type without seconds, a text that fits is refused exactly if its last number has a point; otherwise a fraction is stored all the same |
| `Rebalancing.ReturnCode` | driver/convert.c:2223-2226 | the return code is that of the last number, and is not set exactly if there is no number |
| `Rebalancing.RebalancingConservesTime` | driver/convert.c:2287-2345 | a rebalanced value that does not end in a fraction its type cannot hold conserves the time its digits denote, cut to the smallest field, exactly if the total is below 2^32; sign and fraction are always kept |
| `Rebalancing.RebalancedIsUnique` | driver/convert.c:2287-2345 | the rebalanced value is the only mixed-radix value of its type for that time |
| `IsoPrinter.SecondsOf` | driver/convert.c:2840-2881 | seconds and their fraction print as exact decimals at the record's precision |
| `IsoPrinter.PutMonths` | driver/convert.c:2973-3058 | the year-month part: zero fields are left out, the sign is repeated on each |
| `IsoPrinter.PutDays` | driver/convert.c:2973-3058 | the day part, and the T only if some time field follows |
| `IsoPrinter.PutTime` | driver/convert.c:2973-3058 | the time part, with the seconds if any or if nothing else was printed |
| `IsoPrinter.PrintIso` | driver/convert.c:2973-3058 | the printer fills the buffer with the ISO text and nothing else, and returns its length |
| `IsoRoundTrip.IsoRoundTrip` | driver/convert.c:2973-3058 | for all 13 types, parsing what was printed gives the value back exactly if a test on the fields holds: no lost sign, no unprintable zero, and a total below 2^32 if some field is zero |
| `IsoRoundTrip.YearsBecomeDays` | driver/convert.c:2299-2301 | an instance of the shared storage, for all n: `P<n>Y` read as DAY is n days |
| `IsoRoundTrip.MinutesWrap` | driver/convert.c:2294-2297 | a counterexample: 71582789 minutes are read as 44 seconds, as the product wraps before the checked sum |
| `IsoInputs.LaterOverwrites` | driver/convert.c:2230-2262 | counterexamples: `P1Y2D` read as DAY is two days, `P2D1Y` one |
| `IsoInputs.FractionSlipsIn` | driver/convert.c:2302-2311 | a counterexample: `PT1.500000S2M` read as HOUR TO MINUTE with six digits is two minutes and a fraction of 500000 |
| `IsoInputs.DaysVanish` | driver/convert.c:2075-2085 | a counterexample: `P-9223372036854775808D` read as DAY is zero days |
| `IsoInputs.NothingIsParsed` | driver/convert.c:2347-2356 | `P` and `PT` are parsed as zero, with a return code that is not set |
| `SqlPrinter.PrintSql` | driver/convert.c:2887-2970 | the SQL printer writes the sign and the value and nothing else, and returns their length |
| `SqlPrinter.PutValue` | driver/convert.c:2887-2970 | the switch over the 13 types |
| `SqlPrinter.PutToSecond` | driver/convert.c:2940-2957 | the types up to seconds, whose cases fall through into one another |
| `SqlMeanings.SqlTextDenotes` | driver/convert.c:2887-2970 | any printed value, cut at its separators and summed by field weights, denotes the sign, the amount and the fraction of the interval |
| `SqlMeanings.TranslationPreservesMeaning` | driver/convert.c:3062-3090 | the translated SQL text denotes the sign of the ISO text, its fraction if the type has seconds and none if not, and its months or seconds (cut to the smallest field if rebalanced) exactly if a rebalanced amount is below 2^32 and no number of another is a `-` before 2^63 |
| `SqlMeanings.SqlTextFits` | driver/convert.c:48-57 | the longest SQL value, of any interval, has at most 54 characters, for which the local buffer has room |
| `SqlMeanings.IsoToSql` | driver/convert.c:3062-3090 | translation into a buffer: the SQL text and its terminator, or the parser's fault and the buffer as it was |
| `SqlParser.Text.TrimLeftWs` | driver/util.c:231-246 | leading white space - the six characters of it - and no more, is dropped |
| `SqlParser.Text.TrimRightWs` | driver/util.c:252-265 | trailing white space, and no more, is dropped |
| `SqlParser.Text.ParseField` | driver/convert.c:2380-2417 | the text is read exactly if a field of digits, possibly after a `+`, is in front, within its limit or leading digits; its value is returned and the rest left |
| `SqlParser.Text.ParseSecond` | driver/convert.c:2422-2476 | exactly if the text is seconds, possibly a point, and possibly decimals, their value and the scaled fraction are returned |
| `SqlParser.Text.ParseValue` | driver/convert.c:2481-2621 | exactly if the text is fields and separators of the type, within their limits, the interval they stand for is returned |
| `SqlParser.Text.TrimIfEndsWith` | driver/convert.c:2630-2640 | exactly if the text ends in the word, in any case, with something before it, the word and the space before it are taken off |
| `SqlParser.Text.ParseQualifier` | driver/convert.c:2624-2712 | exactly if the text ends in a qualifier - one of SQL, or a MONTH qualifier followed by TO MINUTE - its type is returned and what is before it left |
| `SqlParser.Text.ParseLiteral` | driver/convert.c:2716-2777 | exactly if the text is a literal - braces or not, keyword, a `+` or `-` or none, a value in quotes or not, qualifier, space between them - the interval it stands for is returned |
| `SqlGrammar.FieldOutcome` | driver/convert.c:2380-2417 | the value or the kind of fault of a field, for every text |
| `SqlGrammar.ValueIff` | driver/convert.c:2481-2621 | a value is read as an interval exactly if some fields, separators and fraction spell it and stand for that interval |
| `SqlGrammar.ValueIsProper` | driver/convert.c:2481-2621 | whatever is read is in mixed radix, with a fraction only of seconds and within precision, and a leading field within the record's digits |
| `SqlGrammar.ValueIsSum` | driver/convert.c:2481-2621 | the months or seconds of the interval read are the sum of the written fields by their weights |
| `SqlGrammar.QualifierIff` | driver/convert.c:2624-2712 | a qualifier is read as a type and a rest exactly if the text is the rest, space, and the words of the type in any case, or of MONTH followed by TO MINUTE |
| `SqlGrammar.LiteralIff` | driver/convert.c:2716-2777 | a literal is read as an interval exactly if it is one that stands for it, with the white space, the braces, the letters of the keyword, the sign `+` or `-`, the quotes and the last character of the value said without the parser: `+ v` reads as `v`, `- v` as `v` negated, and `{ text }` as the text |
| `SqlGrammar.LiteralIsProper` | driver/convert.c:2716-2777 | whatever literal is read gives a proper interval whose leading field has no more digits than asked for |
| `SqlRoundTrip.FieldReads` | driver/convert.c:2380-2417 | a printed number before a non-digit is read back, unless its digits or its value pass the limit |
| `SqlRoundTrip.SecondReads` | driver/convert.c:2422-2476 | printed seconds with their fraction are read back |
| `SqlRoundTrip.ValueReads` | driver/convert.c:2481-2621 | the value parser reads a printed proper value back exactly if its leading field fits the record's digits |
| `SqlRoundTrip.QualifierReads` | driver/convert.c:2624-2712 | each of the 13 qualifiers is recognised and taken off |
| `SqlRoundTrip.LiteralReadsBack` | driver/convert.c:2716-2777 | a literal, quoted or not and in braces or not, reads back as the value it was printed from exactly if the leading digits fit |
| `SqlRoundTrip.ToMinuteIsPassedOver` | driver/convert.c:2670-2693 | any MONTH or YEAR TO MONTH literal followed by TO MINUTE reads as without it: `'5' MONTH TO MINUTE` is 5 months, `'5-3' YEAR TO MONTH TO MINUTE` is 5-3 |
| `SqlRoundTrip.PrintedReadsTheSame` | driver/convert.c:2716-2777 | whatever literal was read, the one printed from its value reads the same |
| `SqlRoundTrip.TranslationReadsBack` | driver/convert.c:3062-3090 | the text translated from ISO, put into a literal, reads back as the struct the ISO text was parsed to exactly if that was rebalanced or is in mixed radix, has a fraction only of seconds, and its leading digits fit |
| `JsonText.EscapedLen` | driver/util.c:403-427 | the counted length is that of the escaped text |
| `JsonText.SequenceIs` | driver/util.c:429-496 | what is written for each character: seven short escapes, upper-case hexadecimal codes for the others below the space, and the rest as they are |
| `JsonText.PutSequence` | driver/util.c:451-496 | one character's escape is written whole or not at all |
| `JsonText.EscapeRange` | driver/util.c:451-496 | the loop, over one or two buffers: it writes the escape of the longest prefix that fits and never overwrites what it has not read |
| `JsonText.EscapeInto` | driver/util.c:437-497 | the same, with the length given or up to the NUL; the rest of the buffer is as it was |
| `JsonText.EscapeOverlapping` | driver/util.c:507-515 | in place: the front of the buffer is the escape of the original bytes, for any room of twice the input that the escape fits; for a length of 0 it is that of the text behind the room, as far as it fits |
| `JsonText.ZeroLengthReadsBehind` | driver/util.c:499-515 | the documented result for a length of 0, the escape of the text up to its NUL, is written exactly if the text behind the room, cut to what fits, is the same |
| `JsonText.WrongTextInPlace` | driver/util.c:499-515 | a counterexample: of `a` in room for two with `b` behind it, `b` is written |
| `JsonText.SixfoldIsEnough` | driver/util.h:244-246 | six times the length is always enough for the escape |
| `JsonText.NothingUnreadIsLost` | driver/util.c:507-515 | what has been written never reaches input that is yet to be read |
| `JsonText.FitIsLongest` | driver/util.c:451-496 | the cut is between escape sequences, after the longest prefix that fits |
| `JsonText.EscapedReadsBack` | driver/util.c:437-497 | read as RFC 8259 section 7 says, an escaped text between quotes is the original, whatever follows: no bare quote, no dangling backslash |
| `JsonText.EscapeIsInjective` | driver/util.c:437-497 | different texts have different escapes |
| `JsonText.EscapedIsPrintable` | driver/util.c:437-497 | no character below a space is left |
| `Requests.ParamsLen` | driver/queries.c:2950-3027 | the length pass over the parameters, with the longest type name; it fails exactly if some string given is longer than its parameter |
| `Requests.ValueLen` | driver/queries.c:2823-2921 | the length counted for each kind of value before it is converted |
| `Requests.StatementLen` | driver/queries.c:3117-3183 | the length pass: it fails exactly if a string given is too long, and else counts at least the length of the body that will be written |
| `Requests.BodyFits` | driver/queries.c:3117-3183 | the body is never longer than what is counted, whatever the values convert to |
| `Requests.BodyExceeds` | driver/queries.c:3117-3183 | and it is shorter by just this: what the parameters may do without - shorter type names, a `true`, UTF-8 octets that need no six characters - and what the flags and the time zone leave |
| `RequestWriter.AppendEscaped` | driver/queries.c:3548-3552 | the SQL text is escaped into what is left of the buffer, whole |
| `RequestWriter.AppendWide` | driver/convert.c:4930-4986 | a wide string is put in place as UTF-8 and escaped in place, within six times its length |
| `RequestWriter.AppendValue` | driver/queries.c:2823-2921 | each kind of value is written as its JSON text |
| `RequestWriter.AppendParam` | driver/queries.c:2977-3017 | one parameter object |
| `RequestWriter.AppendParams` | driver/queries.c:2970-3024 | all of them, within the room of the length pass |
| `RequestWriter.AppendFlags` | driver/queries.c:3573-3592 | the two flags and the time zone |
| `RequestWriter.AppendOpening` | driver/queries.c:3525-3610 | the cursor, or the query with all that goes with it |
| `RequestWriter.SerializeToJson` | driver/queries.c:3515-3630 | the writing pass: exactly the body, within the counted length, and nothing past it |
| `RequestWriter.SerializeStatement` | driver/queries.c:3637-3675 | both passes: the given buffer is used exactly if it is large enough; a string too long fails before anything is written |
| `RequestMeanings.ParamReads` | driver/queries.c:2945-3027 | each parameter object reads, as JSON, as its type name and the value that is sent |
| `RequestMeanings.BodyReads` | driver/queries.c:3515-3630 | the body reads, as JSON, as the object of exactly these members in this order, with the statement and the values that are sent |
| `RequestsAsGiven.SentAsGiven` | driver/convert.c:4897-4928 | a narrow string is sent as given exactly if it is not an empty one, given by its length, in front of what is left in the buffer; that is sent instead |
| `RequestsAsGiven.LengthIsChecked` | driver/convert.c:4909-4920 | the check is of the length given; a text longer than its parameter is sent exactly if it is such a leftover |
| `RequestsAsGiven.TooLongIff` | driver/convert.c:4909-4950 | a string is too long exactly if it has more octets, or as a wide one more characters, than its parameter has room for |
| `RequestsAsGiven.StaleKeyword` | driver/convert.c:4897-4928 | a counterexample: an empty KEYWORD of size 1 in front of `abc` sends `abc` |
| `RequestsAsGiven.EmptyReadsOn` | driver/convert.c:4909-4920 | a string that is to end with a NUL, or of no octets, is read past its buffer exactly if there is no NUL in it |
| `RequestsAsGiven.BodyMeans` | driver/queries.c:3515-3630 | the body reads, as JSON, as the object that was meant - the statement and the values as given - exactly if nothing stale is sent |
| `Paging.ExecuteConserves` | driver/queries.c:899-934 | attaching a page when nothing is pending loses no row and keeps the counters in balance |
| `Paging.FetchConserves` | driver/queries.c:1897-1951 | of one fetch: rows pending and rows arrived are the rows visited and the rows pending now, in order |
| `Paging.FetchCounts` | driver/queries.c:1897-1976 | of one fetch: the total moves by the rows visited, the sets' visited rows add up to it, and it is short of rows exactly if not filled |
| `Paging.FetchCountsPages` | driver/queries.c:899-934 | of one fetch: the result sets counted are the pages with rows among the answers to its requests |
| `Paging.EveryRowOnce` | driver/queries.c:1828-1976 | over any run of fetches of any sizes and any answers, failures included, every row of every page that arrived is visited once and in order, but those pending |
| `Paging.EveryRowDelivered` | driver/queries.c:1897-1962 | the rows delivered and those pending are all rows that have arrived exactly if no fetch of the run drops rows |
| `Paging.FailsIff` | driver/queries.c:1897-1951 | a fetch fails exactly if the answers break off - pages with rows and a cursor, then one that is no page - and the rows there are before that are too few to fill it |
| `Paging.DropsIff` | driver/queries.c:1897-1951 | a fetch fails after it has visited a row exactly if the answers break off - pages with rows and a cursor, then one that is no page - and the rows there are before that are some, but too few to fill it |
| `Paging.CanDrop` | driver/queries.c:1897-1951 | some server can make a fetch drop rows exactly if there is a cursor to go on with, no early execution of an empty page is held, and the rowset has room for two rows and for more than are pending |
| `Paging.SingleRowsAreSafe` | driver/queries.c:1897-1951 | with rowsets of one row no fetch drops any |
| `Paging.RowIsLost` | driver/queries.c:1903-1909 | a counterexample: the last row of a page is lost if the next request, in the same fetch, is refused |
| `Paging.FilledFetchesJoin` | driver/queries.c:1897-1951 | a filled fetch and the next are one fetch of both sizes |
| `Paging.SizesDoNotMatter` | driver/queries.c:1828-1976 | rows and state after a run depend on the total asked for, not on the rowset sizes, if no answer to the requests of the run fails or is an empty page with a cursor |
| `Paging.EverythingIsFetched` | driver/queries.c:1828-1976 | asking for more rows than there are gets all rows of all pages, in order, and leaves no cursor |
| `Paging.NoMoreIsFinal` | driver/queries.c:1899-1926 | after "no data", no further fetch gets a row whatever the server still answers exactly if no cursor is left |
| `Paging.NoMoreLeaves` | driver/queries.c:1899-1926 | a cursor is left by it only if the page was empty |
| `Paging.NoMoreMeansAll` | driver/queries.c:1897-1951 | of a server that sends only pages, the first "no data" comes after all rows exactly if no page without rows comes before one that has some, an empty page executed early included |
| `Paging.EmptyPageEndsFetch` | driver/queries.c:1903-1926 | a counterexample: an empty page with a cursor ends a fetch, though the next fetch gets a row |
| `Statements.Statement.ClearResultSet` | driver/queries.c:163-203 | the page is dropped, the counters too if closing, and the piecewise get is reset |
| `Statements.Statement.AttachAnswer` | driver/queries.c:899-934 | the new page, forced to "no data" if empty, counted as a set only if sound and not empty |
| `Statements.Statement.Execute` | driver/queries.c:3708-3739 | nothing is sent and nothing changes if the query was executed early and has a result set, with rows pending or not; else one request, which succeeds exactly if it is answered by a page |
| `Statements.Statement.Prepare` | driver/queries.c:2455-2502 | closes, and executes early exactly if that is on, the query does not end in quotes and its markers count, in 16 bits, to no more than none; noted as executed exactly if answered by a page |
| `Statements.PreparedIs` | driver/queries.c:2455-2502 | what preparing leaves depends on nothing before it: no result set, or what the answer to the early execution brings |
| `Statements.EarlyIsTransparent` | driver/queries.c:2480-2502 | early execution goes unnoticed: if it succeeded, executing sends nothing more and leaves just what executing without it would have left, so any run of fetches visits the same rows and ends alike with as many requests; if it failed, executing sends the query again |
| `Statements.EarlyQueries` | driver/queries.c:2482-2497 | a query whose markers count to none is executed early, and one with 1 to 32767 of them is not; with 32768 to 65535 it is, as the count is negative in 16 bits |
| `Statements.Statement.UnpackRow` | driver/queries.c:1933-1950 | the next row is taken off the page and counted once |
| `Statements.Statement.NextPage` | driver/queries.c:1899-1926 | with the page exhausted: go on with a page that has rows, or end, or fail |
| `Statements.Statement.Turn` | driver/queries.c:1897-1951 | one turn of the loop either takes a row or uses up a bounded number of turns that do not |
| `Statements.Statement.FetchRows` | driver/queries.c:1897-1951 | the loop terminates even if the server never runs out of pages, and computes the fetch |
| `Statements.Statement.Fetch` | driver/queries.c:1828-1976 | an error exactly if the answers break off before the rowset is filled, or rows are visited and none transfers; "no data" exactly if nothing breaks off and no row is visited; the rowset holds the rows at their places, the rest is untouched, the tail of the status array is "no row", and what is got next is of the last row visited |
| `Statements.Statement.GetData` | driver/queries.c:2080-2162 | which check fails with which error, and only those fail: with a result set, a rowset of one row and a column of the row, no call does; the get starts, resumes or is exhausted, and hands over the piece that is due |
| `Statements.Statement.GetPiece` | driver/queries.c:2080-2162 | a call on a column that is not exhausted, of a statement with a result set, puts what comes next into the buffer |
| `Statements.Statement.GetColumn` | driver/queries.c:2080-2162 | calls one after the other into the same buffer of two characters or more get the whole column, none fails, and the next would find no data |
| `Statements.CallsHandOver` | driver/queries.c:2080-2162 | any run of calls for a column of a result set with rowsets of one row hands over its text from where it starts; each call says whether it was cut short, and those after the end find no data |
| `Statements.ColumnIsGot` | driver/queries.c:2080-2162 | with such rowsets and buffers of two characters or more, as many calls as characters get a whole column: all but the last say it was cut short, the last succeeds, further ones find no data |
| `Pieces.OctetsToCopy` | driver/convert.c:465-515 | never more than there is or than there is room for; truncation is indicated exactly if the buffer is too small |
| `Pieces.GetAdvances` | driver/convert.c:586-716 | one get: what comes next, the bytes left before it, truncated exactly if the rest and its NUL do not fit, exhausted exactly if not truncated |
| `Pieces.PiecesAreTheText` | driver/convert.c:586-716 | the pieces of a run, with buffers of any sizes, and what is left after it are the text |
| `Pieces.GetsReport` | driver/convert.c:523-559 | each indicator of a run is the bytes remaining; all gets but the last are truncated, and the last exactly if data is left |
| `Pieces.BuffersOfTwoReassemble` | driver/convert.c:610-716 | with buffers of at least two characters, as many gets as characters give the whole text and exhaust it |
| `Pieces.SmallBuffersStand` | driver/convert.c:631-716 | a get stands still exactly if its buffer is smaller than two characters |
| `Pieces.PieceIsTerminated` | driver/convert.c:631-716 | without a maximum length every piece is NUL-terminated if there is room for a NUL |
| `Pieces.MaxLengthIsUnterminated` | driver/convert.c:486-505 | with one that is reached, a piece is neither terminated nor reported as cut short |
| `Pieces.MaxLengthIsReported` | driver/convert.c:523-559 | a maximum length is what the indicator says, whatever is left, and the get is cut short exactly if there is room for less than it and than the rest |
| `Pieces.TerminatedIff` | driver/convert.c:465-515 | a piece of a text without NULs is terminated exactly if there is room for a character and the maximum length is none, or enough for the rest and its NUL, or more than the room |
| `Pieces.Transfer` | driver/convert.c:631-716 | the copy writes the piece and its closing character, and nothing else |
| `Dsn.SkipFrom` | driver/dsn.c:148-176 | spaces, tabs, returns and newlines, and between pairs semicolons, are skipped, and nothing else, up to another character, a NUL or the end |
| `Dsn.ScanToken` | driver/dsn.c:184-270 | the loop over a token: braces, separators and the kinds of fault |
| `Dsn.ParseToken` | driver/dsn.c:184-278 | exactly if a token is there - a keyword or a value with the characters either may hold, or in braces - it is returned without its braces, and where it ends |
| `Dsn.Attributes.Assign` | driver/dsn.c:53-142 | the attribute whose keyword matches in any case is overwritten; others are not; values over 768 characters fail |
| `Dsn.Attributes.ParseConnectionString` | driver/dsn.c:307-357 | exactly if the text consists of pairs, with values of at most 768 characters, it is parsed, and each attribute has the value of the last pair that names it |
| `ConnGrammar.TokenIff` | driver/dsn.c:184-278 | a token is read exactly where there is one, with what may be in it and after it said character by character |
| `ConnGrammar.PairIff` | driver/dsn.c:307-357 | a pair is read exactly if the text is a keyword, `=` and a value with gaps of blanks around them, and semicolons only before the keyword |
| `ConnGrammar.AssignIff` | driver/dsn.c:53-142 | a value is assigned to the attribute that its keyword names in any case and to no other, exactly if it has at most 768 characters |
| `ConnGrammar.ReadAllIff` | driver/dsn.c:307-357 | a text is parsed exactly if it consists of pairs that are short enough, and then gives each attribute the value of the last pair that names it |
| `ConnGrammar.GapsDoNotMatter` | driver/dsn.c:148-176 | blanks and semicolons before a keyword, and blanks around its `=`, make no difference to what any text assigns |
| `Dsn.Attributes.ParseList` | driver/dsn.c:359-377 | the entries of a list are parsed in turn |
| `ConnGrammar.ListReads` | driver/dsn.c:359-377 | a list is read entry by entry, ends with an empty one, and fails with one of more than 32767 characters |
| `Dsn.Attributes.WriteConnectionString` | driver/dsn.c:814-909 | the untruncated length is returned whatever the room; what fits is written and terminated, and nothing past the room |
| `ConnRoundTrip.BracesIff` | driver/dsn.c:379-395 | a value is written in braces exactly if it holds a space, a tab, a return, a newline, `=` or `;`, and as it is otherwise |
| `Dsn.Attributes.WriteList` | driver/dsn.c:397-486 | given up exactly if the entries need more than the room, and else written whole, past the room exactly if there is none or the entries fill it |
| `ConnStrings.ListOverruns` | driver/dsn.c:440-483 | a list that is not given up is longer than its room exactly if there is no room or the entries fill it exactly |
| `ConnStrings.OneIsWritten` | driver/dsn.c:814-909 | of a single attribute that needs no braces, its keyword, `=`, the value and `;` are written, or in a list two NULs |
| `ConnStrings.ShortListOverruns` | driver/dsn.c:440-483 | a counterexample: the list of `DSN=a` with room for six characters |
| `ConnRoundTrip.KeywordFound` | driver/dsn.c:104-136 | each of the 37 keywords finds its own attribute: no two are equal in lower case |
| `ConnRoundTrip.ValueReadsBack` | driver/dsn.c:184-278 | a written value is read back exactly if it is writable: no NUL; no braces if it holds a blank, `=` or `;`; no opening brace at its start if not |
| `ConnRoundTrip.ConnStringReadsBack` | driver/dsn.c:307-357 | a connection string of writable values restores all 37 attributes, also if terminated by a NUL |
| `ConnRoundTrip.ListReadsBack` | driver/dsn.c:359-377 | a list of writable values restores all 37 attributes, whatever follows it |
| `ConnRoundTrip.EntriesFit` | driver/dsn.c:814-909 | the longest text is within a 16-bit length |
| `ConnFailures.RemainderReads` | driver/dsn.c:307-357 | what is left of a value that broke out of its braces is a fault, or is read to its end and assigns only shorter values |
| `ConnFailures.ConnStringRestores` | driver/dsn.c:814-909 | a connection string restores the attributes it was written from exactly if all of them are writable |
| `ConnFailures.ListRestores` | driver/dsn.c:397-486 | and so does a list |
| `ReceiveBuffer.Receiver.Receive` | driver/connect.c:269-345 | a chunk is taken exactly if it is within the cap (and memory can be had); the buffer is then the bytes taken and a NUL, grown by doubling up to the cap, and a chunk refused changes nothing; the NUL is written through a null pointer exactly if the very first chunk is empty |
| `ReceiveBuffer.Receiver.Grow` | driver/connect.c:314-320 | growing keeps what was received |
| `ReceiveBuffer.Receiver.ReceiveAll` | driver/connect.c:269-345 | the calls for all chunks hold what is collected of them under the cap, unless an empty chunk comes before any that is taken |
| `ReceiveBuffer.AllOrCapped` | driver/connect.c:269-345 | over any chunks the cap is never passed, and everything is held exactly if all of it is within the cap |
| `ReceiveBuffer.HeldWhole` | driver/connect.c:269-345 | all that is sent is held exactly if there is no cap, or it does not pass it: reaching it is no fault |
| `Bignum.ReadBignum` | driver/tinycbor.c:227-247 | a bignum is read exactly if its big-endian value is below 2^64, however many leading zeros it has, and gives that value |
| `Bignum.SwapIsBigEndian` | driver/tinycbor.c:243-247 | a little-endian load of swapped bytes is a big-endian load |
| `Patterns.MetadataIdEscape` | driver/util.c:705-738 | the loop passes on the escaped text, or the text itself, and reports which |
| `Patterns.EscapingIsInverted` | driver/util.c:705-738 | removing the escapes gives the text back; escaping at most doubles it |
| `Patterns.EscapedMatchesItself` | driver/util.c:705-738 | an escaped text, as a pattern, matches that text and no other |
| `Patterns.UnforcedIsIdempotent` | driver/util.c:705-738 | escaping that is not forced, applied twice, is the same as once |
| `Patterns.PassedIs` | driver/util.c:705-738 | unforced, a lone `%`, `_` or backslash and a text with one of them after a backslash are passed on as they are, and all others escaped |
| `Markers.CountParamMarkers` | driver/queries.c:4119-4194 | counts the runs of exactly one question mark that is neither quoted nor escaped, in 16 bits, and fails exactly if the text ends in quotes or in a live escape |
| `Markers.CountIsAdditive` | driver/queries.c:4137-4180 | counts add up over texts split outside quotes and not within a run |
| `Markers.QuotedCountsNothing` | driver/queries.c:4159-4170 | what is between a pair of `"`, or of `'`, never counts |
| `Markers.EscapedCountsNothing` | driver/queries.c:4171-4178 | nor does a character after a backslash |
| `Markers.RunOfMarks` | driver/queries.c:4145-4158 | one question mark counts, and more in a row do not |

## Left out

- Doubles, timestamps, dates, SQL_NUMERIC and time zone arithmetic. `print_interval_sec` goes through a
  double; here it is exact decimal, so double rounding is not captured.
- Characters outside ASCII: white space and letter case follow ASCII, and UTF-8/UTF-16 conversions are
  parameters.
- Shifts of 64 or more in `pow10`, for fractions of more than 63 digits beyond the precision: undefined in C,
  taken as exact.
- JsonText.EscapeOverlapping: with a room below twice the input the move overlaps itself, which `memcpy`
  leaves undefined; such calls are excluded.
- Requests.StatementLen: allocation failure, and the lengths of numeric, date and interval parameters, are
  not modelled; parameters are NULL, boolean, narrow or wide strings.
- RequestWriter.AppendWide: for an empty wide string the code also runs the escaper, which then looks for a
  NUL in the body behind it; as it has no room it writes nothing, and only that is modelled.
- RequestsAsGiven.BodyMeans: cursors, catalogs and the version are copied unescaped by the code and assumed
  to need no escaping; the fetch size is assumed to be a JSON number.
- CBOR requests and answers, but for the bignum reader: foreign library, mostly.
- Statements.Statement.Fetch: the compatibility check of bound columns is taken to pass, each row is
  transferred as a whole or fails as a whole, the status of a failed row is not stated, and rows whose
  conversion succeeds with information count as successful.
- Statements.Statement.GetData: string columns as wide characters only; SQL_C_CHAR, other conversions, NULL
  values and a missing target buffer are not modelled.
- Descriptors, binding, diagnostics, catalog functions, `SQLGetInfo`, the conversion matrix.
- libcurl, base64, UJSON4C, tinycbor, WinAPI, registry, logging, mutexes.
- Dsn.Attributes.WriteList: what a list that was given up leaves within its room is not stated.
- Dsn.Attributes.Assign: overwriting only, as both parsers call it.
- Dsn.Attributes.WriteConnectionString: errors of `swprintf` other than a lack of room.
- Integers.Str2UBigInt: the text is a sequence, narrow and wide alike; that a count fits an int is not stated.
- ReceiveBuffer.Receiver.Receive: sizes are unbounded, so the doubling never wraps.
- ReceiveBuffer.Receiver.ReceiveAll: libcurl ends a transfer at a chunk that is not taken; here the chunks after
  it are offered all the same.
