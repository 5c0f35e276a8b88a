# A model of Kod's runtime and standard library

Kod is a self-hosted language. Under its compiler lie a runtime in C and a standard library in Kod
itself, and this project models the parts of them that carry the weight: the builtin hash map, the
JSON parser and printer, calendar and timestamp arithmetic, the stable sort, the arena and the
growable arrays, string building, float text, buffered streams, message framing, the language
server's state and the bounded decompression loop. `dafny verify dfyconfig.toml` checks all of it.

Code that updates things in place is modelled by classes and methods with loops; each such method is
proved against a function of its inputs or of the old state, and what the code is for is then proved
about that function or state. The modules:

- `Kod`, `ByteText`, `DecimalText`, `Finite`: integers, bytes, decimal text, counting. Kod's `/` and
  `%` truncate toward zero; int64 is a bounded integer, and `Wrap` is what 64 bits leave of a number.
- `ProbeCycle`, `HashMap`: the number theory of the probe sequence, and the map that depends on it.
- `JsonGrammar` states RFC 8259 (sections 2 to 7) as syntax trees with a text and a meaning, knowing
  nothing of a parser. `JsonParse` is the parser as functions, `JsonComplete` and `JsonSound` the two
  directions of its exactness, `JsonParser` the mutable parser. `JsonErrors` says where and why a
  text is refused, over `JsonFaults` (what settles a fault), `JsonLocal` (the parser looks no further)
  and `JsonPrefix` (what comes before can be continued). `JsonEmit` is the printer, `JsonLayout` how
  its texts look, `JsonRoundTrip` parser and printer together, `JsonEscapes` and `Utf8` the code points.
- `Calendar`, `Timestamp`, `TimestampText`, `DurationText`: dates, RFC 3339 and durations.
- `MergeSort`; `Streams`, `StreamRuns`; `JsonRpc`; `Inflate`.
- `Arena`, `ArrayHeap`, `StrBuilder`, `FloatText`, `FloatCheck`, `LspState`, `LspServer`: the C side.

What lies outside is a parameter or a free choice: `hash` is any function to int64, negative values
included; a reader hands out pieces of any size, and fails or never does; `malloc` returns any memory
not in use; memory may be refused or ample; zlib decodes however it likes and hands its output out in
any portions; a float's decimal digits and exponent are whatever `snprintf` found. Where such a thing
can fail, its failures are counted, and results say of the code that it reports a failure exactly
when there was one.

What the code does that a reader of its comments might not expect, each with its exact condition:

- `time.parse(t.to_str())` gives `t` back exactly when `t` is normal and its year is in 0000 to 9999
  (`TimestampText.ParseOfText`); the sum of a time and a duration and the difference of two times are
  exact exactly when they fit 64 bits (`TimestampText.AddIsExactIffItFits`, `SubIsExactIffItFits`).
- A `Duration` of the smallest int64 prints as `--9223372036854775808ns`, which is no duration;
  every other one prints as a text that means it (`DurationText.TextMeans`).
- `kod_inflate` looks at the input's length modulo 2^32, so its answer is about the whole input
  exactly when the input is shorter than 4 GiB (`Inflate.WholeInputIffShort`).
- `read_message` is documented to return none at the end of input. It answers none exactly when the
  headers announce no length or a negative one (`JsonRpc.NoneIff`): also at an empty line with whole
  frames behind it (`JsonRpc.EmptyLineAnswersNone`) and at a length from 2^63 on, which wraps
  (`JsonRpc.AnyLengthAnswered`); and not at the end of input after a length was announced
  (`JsonRpc.EndAfterLength`).
- A JSON text that is refused can be continued, up to the offset told, to a text that is not; except
  that a `\u` escape whose first digits already make it a surrogate out of place is told at its
  first byte that is no digit (`JsonErrors.BeforeTheError`, with `"\uDCx0"` in `DoomedExample`).
- The string builder's copies and abandoned buffers stay under twice the bytes appended one by one.
  Together they do exactly for the numbers of bytes that `StrBuilder.JointlyLinearIff` names; 65 is
  the first that is none of them.

## Model

| member | source | states |
|---|---|---|
| `DecimalText.ToStr` | stdlib/primitives/int64.kod:6-26 | for every int64, the smallest included, the digit loop writes the canonical decimal text |
| `DecimalText.ParseInt` | stdlib/primitives/str.kod:502-537 | the negated accumulation accepts exactly an optional sign and digits within the int64 range, and returns that number; nothing in it overflows |
| `DecimalText.ParsedIntIs` | stdlib/primitives/str.kod:499-537 | a number is returned if and only if the text is digits that denote it, with no sign, a plus or a minus, and it is an int64 |
| `DecimalText.ParsedIntText` | stdlib/primitives/str.kod:499-501 | reading the canonical text of an int64 gives it back |
| `DecimalText.NatTextUnique` | stdlib/primitives/int64.kod:6-26 | the canonical texts are exactly the digit strings without a superfluous leading zero |
| `ProbeCycle.PerturbDies` | stdlib/builtins.kod:46 | truncating division by 32 brings every hash, negative or not, to 0 within 13 rounds |
| `ProbeCycle.LeapMovesOdd` | stdlib/builtins.kod:47 | 2^k rounds of `5*i + 1` move any number by an odd multiple of 2^k |
| `ProbeCycle.FullCycle` | stdlib/builtins.kod:47 | `5*i + 1` reaches every residue modulo 2^k within 2^k rounds, from anywhere |
| `ProbeCycle.TailFollowsLcg` | stdlib/builtins.kod:38-48 | once `perturb` is 0 the slots are those of that recurrence, modulo the table's size |
| `ProbeCycle.ProbeMeetsEverySlot` | stdlib/builtins.kod:33-50 | for every hash and every power-of-two table, the probe sequence meets every slot within 13 + size rounds |
| `ProbeCycle.SlotInRange` | stdlib/builtins.kod:37-47 | every slot of every probe sequence is inside the table, for negative hashes too |
| `ProbeCycle.RoundFitsInt64` | stdlib/builtins.kod:37-47 | with a table of at most 2^60 slots no step of a probe leaves int64 |
| `HashMap.ProbeEnds` | stdlib/builtins.kod:38-48 | in every table with a slot to spare, the probe sequence meets an empty slot |
| `HashMap.FilingExtends` | stdlib/builtins.kod:93-94 | putting a new entry in the empty slot its probe found keeps the whole index right: each entry in one slot, no empty slot earlier on its path |
| `HashMap.Map.EmptyIndices` | stdlib/builtins.kod:20-28 | a table of that many empty slots |
| `HashMap.Map.Probe` | stdlib/builtins.kod:33-50 | the loop ends, and the slot is the key's own if the key is present and an empty one if not |
| `HashMap.Map.Resize` | stdlib/builtins.kod:54-63 | the new table indexes exactly the same entries; keys and values are not touched |
| `HashMap.Map.Get` | stdlib/builtins.kod:65-75 | the value the abstract map has, or none |
| `HashMap.Map.Contains` | stdlib/builtins.kod:101-107 | membership in the abstract map |
| `HashMap.Map.Set` | stdlib/builtins.kod:77-99 | the abstract map with that one key updated; a new key goes last, an old one keeps its place; table size and load rule are kept |
| `HashMap.Map.Insert` | stdlib/builtins.kod:91-98 | the same for a new key, through a resize if the load rule asks for one |
| `HashMap.Map.Len` | stdlib/builtins.kod:120-122 | the number of keys in the abstract map |
| `HashMap.Run` | stdlib/builtins.kod:11-123 | every run of set, get, contains and len from an empty map answers as a finite map does, and ends with the keys in the order of their first insertion |
| `Utf8.EncodeIsUtf8` | stdlib/json.kod:204-220 | `append_code_point` writes a UTF-8 character (RFC 3629) exactly for scalar values, and the one that decodes to it |
| `Utf8.DecodeIsScalar` | stdlib/json.kod:204-220 | and every UTF-8 character is written for its scalar value |
| `Utf8.PairsAreBijective` | stdlib/json.kod:334-356 | surrogate pairs and the code points 10000 to 10FFFF correspond one to one |
| `JsonEscapes.MeaningIsUtf8` | stdlib/json.kod:334-356 | a decoded `\u` escape, or pair of them, is the UTF-8 of its scalar value |
| `JsonEscapes.MeaningIsInjective` | stdlib/json.kod:334-356 | two escapes decode to the same bytes exactly when they stand for the same scalar value |
| `JsonEscapes.EscapeReadsBack` | stdlib/json.kod:334-356 | every scalar value has an escape, and reading it gives its UTF-8 |
| `JsonEscapes.GoodIffEscape` | stdlib/json.kod:314-356 | after `\u` the parser goes on exactly when a scalar's escape or a whole surrogate pair stands there |
| `JsonEscapes.LoneSurrogateFails` | stdlib/json.kod:334-356 | a low surrogate always fails, a high one unless a low one follows; the offset is that of its backslash, also when a whole escape that is no low surrogate follows |
| `JsonComplete.TreeParses` | stdlib/json.kod:274-526 | at the text of any JSON value the parser returns its meaning and stops right after it, or reports "nesting too deep" exactly when the value is too deep |
| `JsonComplete.DocumentParses` | stdlib/json.kod:528-540 | every JSON text, with or without a byte order mark, parses to its meaning or is too deep |
| `JsonComplete.MeaningIsUnique` | stdlib/json.kod:528-540 | the grammar is unambiguous as to meaning |
| `JsonSound.TextSound` | stdlib/json.kod:528-540 | everything accepted is a JSON text within the depth limit, and the result is its meaning |
| `JsonSound.ParseIsExact` | stdlib/json.kod:222-540 | parse returns a value if and only if the text denotes it in RFC 8259 and nests no deeper than `max_depth` |
| `JsonSound.OnlyDepthFails` | stdlib/json.kod:267-272 | a JSON text that nests deeper fails with "nesting too deep" and with nothing else |
| `JsonParser.LineStartSpec` | stdlib/json.kod:171-184 | the line start that errors count columns from is right after the last line feed before the offset |
| `JsonParser.PlaceIsUnique` | stdlib/json.kod:171-184 | line and column of an error determine its offset |
| `JsonParser.MakeError` | stdlib/json.kod:171-184 | the loop finds the line and the column of the offset |
| `JsonParser.Parser.SkipSpace` | stdlib/json.kod:240-250 | moves to the first byte that is not white space |
| `JsonParser.Parser.ReadHex4` | stdlib/json.kod:314-332 | four hexadecimal digits as a number, or the error at the first byte that is none |
| `JsonParser.Parser.ReadUnicode` | stdlib/json.kod:334-356 | one code point after `\u`, surrogate pairs joined, as the specification says |
| `JsonParser.Parser.ReadString` | stdlib/json.kod:358-409 | the whole string loop, runs copied at once, gives the bytes and the position or the error of the byte-wise specification |
| `JsonParser.Parser.ReadNumber` | stdlib/json.kod:419-458 | an integer in range as int64, any other number as its text; errors at their offsets |
| `JsonParser.Parser.ReadArray` | stdlib/json.kod:460-485 | the loop over elements refines the recursive specification, and restores the depth |
| `JsonParser.Parser.ReadObject` | stdlib/json.kod:487-525 | the same for members, with keys and values in order and of equal number |
| `JsonParser.Parser.ReadValue` | stdlib/json.kod:274-312 | the mutable parser refines the specification from any position and depth, terminates, and never indexes out of range |
| `JsonParser.Parse` | stdlib/json.kod:528-540 | the entry point returns the specified value, or the specified message with an offset inside the text and its line and column; which message and which offset, the next rows say in terms of the grammar |
| `JsonErrors.TooDeepIff` | stdlib/json.kod:267-272 | the message is "nesting too deep" if and only if an opening bracket stands at the offset that could still be part of a JSON text; then no JSON text that contains it keeps the limit, while what stands before it can be continued within the limit |
| `JsonErrors.TrailingIff` | stdlib/json.kod:534-538 | the message is "unexpected text after the value" if and only if what stands before the offset is a JSON text; then it keeps the limit, no longer beginning of the input is one, and the byte at the offset is not white space |
| `JsonErrors.BeforeTheError` | stdlib/json.kod:222-540 | whatever the message, what stands before the offset is the beginning of a JSON text within the limit; for a bad `\u` escape exactly when its digits have not doomed it, and else what stands before the escape |
| `JsonErrors.AtTheError` | stdlib/json.kod:222-540 | with the bytes that settle the fault, for most the one at the offset, no JSON text can follow; a literal, an escape, a lone surrogate and a broken byte order mark are reported at their first byte |
| `JsonErrors.DoomedExample` | stdlib/json.kod:314-332 | a text refused at an offset up to which it could not be continued |
| `JsonErrors.ReachRulesOut` | stdlib/json.kod:274-526 | no text that agrees with a refused one on the bytes that settle its fault is JSON, under any limit |
| `JsonLocal.ValueStillBad` | stdlib/json.kod:274-526 | a text that shows the same fault, or ends where it is, fails too, also under a larger limit |
| `JsonLocal.ValueSame` | stdlib/json.kod:274-312 | what was read before a fault is read the same in such a text |
| `JsonPrefix.ValueFails` | stdlib/json.kod:274-526 | for every way the parser fails, an ending that makes a value within the limit of what was read |
| `JsonEmit.WriteString` | stdlib/json.kod:551-586 | the run-copying loop writes a JSON string of pieces, of which `PiecesOfMean` proves that they mean the bytes given |
| `JsonEmit.PiecesOfMean` | stdlib/json.kod:551-586 | what is written for a string is valid and denotes exactly that string |
| `JsonEmit.IsNumberText` | stdlib/json.kod:588-630 | accepts exactly the numbers of section 6 of RFC 8259 |
| `JsonEmit.WriteBreak` | stdlib/json.kod:633-642 | appends the break, of which `JsonLayout` proves what it looks like in the whole text |
| `JsonEmit.WriteValue` | stdlib/json.kod:644-705 | the emitter writes the text of the value's syntax tree, for every indent and level; the tree has the value's meaning (`ParseOfEmit`) and its text the layout below |
| `JsonEmit.Emit` | stdlib/json.kod:713-723 | the whole text, compact or indented |
| `JsonLayout.EmittedIsLaidOut` | stdlib/json.kod:633-723 | compact text has no white space outside strings; indented text has each element, member and closing bracket of what is not empty on a line of its own, indented by the brackets open there, one space after a colon, and no other white space outside strings |
| `JsonLayout.CompactHasNoSpace` | stdlib/json.kod:633-642 | every byte of white space in compact text is inside a string |
| `JsonLayout.StringIsShortest` | stdlib/json.kod:551-586 | of all JSON strings that mean the same bytes none is shorter than the one written |
| `JsonRoundTrip.ParseOfEmit` | stdlib/json.kod:528-723 | for every value the emitter can write and every indent, parsing the emitted text gives the value's canonical form if its depth is within the limit and "nesting too deep" otherwise; the canonical form is the value itself exactly when each `Decimal` is a number text that is not an int64 and no object has values without a key |
| `JsonRoundTrip.CanonFixes` | stdlib/json.kod:644-705 | which values the emitter writes without changing them |
| `JsonRoundTrip.ParseEmitParse` | stdlib/json.kod:528-723 | parse, emit, parse is parse, for every accepted text and every indent |
| `Calendar.YearOfEraIsRight` | stdlib/time.kod:190 | Hinnant's corrected division finds the year of the era from its day, for all 146097 days |
| `Calendar.DaysRoundTrip` | stdlib/time.kod:183-201 | every day number, of any size and sign, gives a valid date that maps back to it |
| `Calendar.DateRoundTrip` | stdlib/time.kod:329-341 | every valid date maps to a day number that gives it back |
| `Calendar.DatesAreNumberedInOrder` | stdlib/time.kod:315-341 | the day after a Gregorian date has the next number, and 1970-01-01 is 0: the numbering is the calendar |
| `Calendar.UtcRoundTrip` | stdlib/time.kod:183-201 | every second gives a valid date and clock reading that stands for it |
| `Calendar.UtcIsUnique` | stdlib/time.kod:183-201 | and every valid reading is that of its second |
| `Timestamp.StampParses` | stdlib/time.kod:234-287 | every timestamp of section 5.6 of RFC 3339 is accepted and read as its instant, `:60` as the next second |
| `Timestamp.StampSound` | stdlib/time.kod:234-287 | everything accepted is such a timestamp |
| `Timestamp.ParseTimeIsExact` | stdlib/time.kod:234-302 | parse returns a time if and only if the text is a timestamp of that instant |
| `TimestampText.ParseOfText` | stdlib/time.kod:203-216 | `parse(t.to_str()) == t` if and only if the nanos are normal and the year is in 0000 to 9999 |
| `TimestampText.AnyOffsetReadsBack` | stdlib/time.kod:265-286 | one instant written with any legal offset is read back as the same time |
| `TimestampText.TimeArithmetic` | stdlib/time.kod:158-181 | overflow aside, `+`, `-` and `<` on normal times are those of the integers, and `+` keeps times normal and undoes `-` |
| `TimestampText.AddIsExactIffItFits` | stdlib/time.kod:158-166 | with every step in 64 bits, the sum is that of the integers exactly when its seconds fit; its nanos always are |
| `TimestampText.SubIsExactIffItFits` | stdlib/time.kod:168-170 | with every step in 64 bits, adding a difference back gives the time exactly when the difference fits |
| `TimestampText.Digits` | stdlib/time.kod:304-313 | the value of the digits at a place, or none if one is no digit |
| `TimestampText.ParseDate` | stdlib/time.kod:290-302 | midnight of the date written, or none |
| `TimestampText.ReadFraction` | stdlib/time.kod:247-261 | the fraction in nanoseconds, digits past the ninth dropped |
| `TimestampText.Parse` | stdlib/time.kod:234-287 | the index loops compute the specified result |
| `TimestampText.TimeToStr` | stdlib/time.kod:203-216 | padding and trimming write the text of which the next two rows speak |
| `TimestampText.FractionEnds` | stdlib/time.kod:205-213 | a fraction is written exactly when there is one, and never ends in a zero |
| `TimestampText.TextIsShortest` | stdlib/time.kod:203-216 | of all timestamps with `T` and `Z` for a moment none is shorter than the one written |
| `DurationText.MeaningIsUnique` | stdlib/time.kod:99-130 | no text such as `1h2m3.5s` means two different durations |
| `DurationText.PartsOfMean` | stdlib/time.kod:107-129 | hours, minutes, seconds and smaller units written for a duration add up to it exactly |
| `DurationText.TextMeans` | stdlib/time.kod:99-130 | the text means the duration if and only if it is not the smallest int64 |
| `DurationText.TextIsInjective` | stdlib/time.kod:99-130 | different durations have different texts |
| `DurationText.DecimalOf` | stdlib/time.kod:133-145 | for every power of ten, `decimal` writes the whole part alone, or with a fraction that does not end in a zero |
| `DurationText.DecimalsAreShortest` | stdlib/time.kod:138-144 | no decimals of the same worth are fewer than those written |
| `DurationText.LargestUnitFirst` | stdlib/time.kod:99-130 | the first unit is the largest that goes into the duration, hours bring minutes and seconds, minutes seconds, and no part amounts to one of the next larger unit |
| `DurationText.DurationToStr` | stdlib/time.kod:99-130 | the branches write the specified text, negation in 64 bits included |
| `MergeSort.StableSortPromises` | stdlib/sort.kod:12-13 | a stable sort is a sorted permutation in which equivalent elements keep their order |
| `MergeSort.StableSortIsUnique` | stdlib/sort.kod:12-13 | and there is only one |
| `MergeSort.Merge` | stdlib/sort.kod:26-38 | merging two neighbouring sorted runs gives one, stably, and calls the comparator, which counts its calls, at most once for each element |
| `MergeSort.Pass` | stdlib/sort.kod:20-41 | one pass doubles the length of the sorted runs, with at most n calls of the comparator |
| `MergeSort.SortedBy` | stdlib/sort.kod:13-44 | for every array and strict weak order the result is the stable sort of it, and the comparator is called at most n * ceil(log2 n) times |
| `Streams.BufReader.Read` | stdlib/stream.kod:153-167 | the next bytes in order, buffered ones first; empty only at the end or for a non-positive size; an error exactly when the inner reader failed |
| `Streams.BufReader.ReadExact` | stdlib/stream.kod:85-95 | exactly n bytes however they come; "unexpected end" exactly when there are fewer, with all of them taken; another error exactly when the inner reader failed |
| `Streams.BufReader.ReadUntil` | stdlib/stream.kod:173-204 | unless the inner reader failed, which is told exactly then: the bytes before the first delimiter, which is consumed; none exactly at the end; "line too long" exactly when that piece is longer than the limit |
| `Streams.BufReader.ReadLine` | stdlib/stream.kod:206-218 | the bytes in reach before the first line feed or the end, less one carriage return right before that; `ended` set exactly when the last line had no line feed |
| `Streams.ReadAll` | stdlib/stream.kod:73-83 | everything that is left, or an error exactly when the reader failed |
| `Streams.WriteAll` | stdlib/stream.kod:97-107 | all of the data once and in order, over a writer that takes any part; an error exactly when a write failed or took nothing, and then a proper prefix was written |
| `StreamRuns.DeliversOnce` | stdlib/stream.kod:145-218 | in every interleaving of operations the bytes used up by each, and the rest, make up the data: every byte once and in order; each result is what it used up less exactly the delimiter, or the line feed and one carriage return |
| `StreamRuns.StepIsDetermined` | stdlib/stream.kod:173-218 | one sized operation shows the same however the inner reader cuts its pieces |
| `StreamRuns.TracesAgree` | stdlib/stream.kod:145-218 | two runs over the same data agree, operation by operation, up to and including the first error |
| `StreamRuns.ChunkingIsInvisible` | stdlib/stream.kod:145-218 | over readers that do not fail, two runs of the same sized operations show the same up to and including the first error, however the readers cut their pieces and whatever the two chunk sizes |
| `StreamRuns.DeliversAll` | stdlib/stream.kod:145-218 | over a reader that does not fail, every byte comes once and in order until an operation asks for more than there is or meets a line that is too long |
| `StreamRuns.Run` | stdlib/stream.kod:145-218 | every run of a reader over every source, for every chunk and limit, is one of the runs these results are about, and as many of its operations show a failure as the source had: none over a reliable one |
| `JsonRpc.Stdin.ReadLine` | stdlib/runtime.c:924-953 | the bytes before the line feed or the end, less one carriage return, through a scratch buffer that doubles |
| `JsonRpc.LineInBytes` | stdlib/runtime.c:924-953 | that line in bytes: one carriage return before the line feed is dropped and nothing else |
| `JsonRpc.Stdin.ReadExact` | stdlib/runtime.c:972-987 | n bytes, or all there are |
| `JsonRpc.HasPrefix` | stdlib/jsonrpc.kod:44-56 | whether the string starts with the prefix |
| `JsonRpc.ParseAfterColon` | stdlib/jsonrpc.kod:61-78 | the number after the first colon and blanks, in 64 bits; 0 without digits |
| `JsonRpc.Stdin.ReadMessage` | stdlib/jsonrpc.kod:15-34 | the message the headers decide on, and exactly the rest left |
| `JsonRpc.Stdout.WriteMessage` | stdlib/jsonrpc.kod:39-42 | the frame of the body and nothing after it |
| `JsonRpc.HeadersDecide` | stdlib/jsonrpc.kod:15-34 | for any headers and an empty line the answer is none without a length, else that many of the bytes that follow; the last length counts |
| `JsonRpc.EveryInputAnswered` | stdlib/jsonrpc.kod:15-34 | every input whatever is headers up to an empty line or the end, and is answered by the same rule |
| `JsonRpc.NoneIff` | stdlib/jsonrpc.kod:10-34 | for every input the answer is none if and only if its headers announce no length that is not negative, and then what follows them is left, which is the end of input exactly when that is nothing |
| `JsonRpc.EmptyLineAnswersNone` | stdlib/jsonrpc.kod:19-25 | an empty line in front answers none whatever follows it |
| `JsonRpc.AnyLengthAnswered` | stdlib/jsonrpc.kod:15-34 | a length counts as 64 bits hold it, so one from 2^63 to 2^64 - 1 answers none |
| `JsonRpc.EndAfterLength` | stdlib/jsonrpc.kod:19-26 | input that ends after a length was announced answers an empty body, not none |
| `JsonRpc.ShortBodyAnswered` | stdlib/runtime.c:972-987 | a body cut short by the end of input is returned as far as it goes |
| `JsonRpc.FrameReads` | stdlib/jsonrpc.kod:15-42 | a frame reads back as its body, whatever bytes it holds and whatever unrecognised headers stand around the length, and leaves what follows |
| `JsonRpc.MessagesReadBack` | stdlib/jsonrpc.kod:15-42 | any sequence of frames, with any unrecognised headers, is read back as the same bodies and then none |
| `JsonRpc.WriteRun` | stdlib/jsonrpc.kod:39-42 | whatever bodies a run of `write_message` writes, reading the output gives them back |
| `JsonRpc.ReadRun` | stdlib/jsonrpc.kod:15-34 | repeated `read_message` returns those messages until none |
| `Inflate.KodInflate` | stdlib/compress/inflate.c:30-101 | unless a request for memory was refused during the call, and always with ample memory, the answer is the function of input, mode and limit that `Answer` is, whatever portions zlib hands out; the buffer stays within limit + 1 |
| `Inflate.Grown` | stdlib/compress/inflate.c:49-60 | a full buffer always can grow, within limit + 1 and without overflow: the branch for one that cannot is dead |
| `Inflate.Pump` | stdlib/compress/inflate.c:61-66 | one call of zlib moves bytes from what is due to the end of what is held, losing and inventing none |
| `Inflate.MembersJoin` | stdlib/compress/inflate.c:72-82 | gzip members one after another give their outputs joined (section 2.2 of RFC 1952), and whatever follows the last one is taken as a member too |
| `Inflate.MembersAnswer` | stdlib/compress/inflate.c:67-101 | the answer is the joined output exactly when it is within the limit, and "output too large" otherwise |
| `Inflate.OneStreamAnswer` | stdlib/compress/inflate.c:72-84 | in zlib and raw mode whatever follows the stream is passed over |
| `Inflate.WholeMultiplesFail` | stdlib/compress/inflate.c:45 | an input whose length is a multiple of 2^32 never succeeds |
| `Inflate.WholeInputIffShort` | stdlib/compress/inflate.c:45 | the answer is about the whole input if and only if its length fits 32 bits |
| `Arena.Arena.NewBlock` | stdlib/arena.c:14-30 | a block with room for the request, apart from all others, linked in front of them |
| `Arena.Arena.Alloc` | stdlib/arena.c:23-34 | memory that is 8-aligned, inside an unfreed block and apart from every live allocation, of which none moves |
| `Arena.Arena.FreeOne` | stdlib/arena.c:43-47 | the way on is read from a block before it is freed, and only a block in use is freed |
| `Arena.Arena.Reset` | stdlib/arena.c:41-49 | every block of the chain is freed exactly once, and no memory is left taken |
| `Arena.Run` | stdlib/arena.c:12-49 | in every run of allocations and resets the pointers returned since the last reset stand for live memory of the sizes asked for: aligned, inside unfreed blocks, pairwise disjoint |
| `Arena.HeadersAreClear` | stdlib/arena.c:14-34 | no live allocation touches any block's header |
| `ArrayHeap.Clamp` | stdlib/runtime.c:335-340 | for any slice bounds, a range of exactly the places of the array that lie between them |
| `ArrayHeap.ArrayHeap.Slice` | stdlib/runtime.c:845-857 | a new array with, in order, what stands at the places of the array between the bounds, and nothing else; no other array changes |
| `ArrayHeap.ArrayHeap.Copy` | stdlib/runtime.c:859-869 | a new array with the same contents; no other array changes |
| `ArrayHeap.ArrayHeap.Plus` | stdlib/runtime.c:892-903 | a new array with both contents; no other array changes |
| `ArrayHeap.ArrayHeap.Grow` | stdlib/runtime.c:874-883 | room for the total, contents kept, for every array |
| `ArrayHeap.ArrayHeap.Append` | stdlib/runtime.c:871-889 | the left array becomes old left + old right, also for `xs += xs`, no other array changes, and nothing is written past `cap` |
| `StrBuilder.Builder.Reserve` | stdlib/runtime.c:385-397 | doubling ends within int64 and keeps the content, or panics exactly past the limit |
| `StrBuilder.Builder.Append` | stdlib/runtime.c:399-404 | the content with the string added |
| `StrBuilder.Builder.AppendByte` | stdlib/runtime.c:406-410 | the content with the low 8 bits added |
| `StrBuilder.Run` | stdlib/runtime.c:367-423 | after any run, up to the first append that panics, the content is what was appended since the last clear, and growing has cost exactly what the books of the run say |
| `StrBuilder.CostIsBounded` | stdlib/runtime.c:367-370 | for every run appending n > 0 bytes, copies and abandoned buffers each stay under 2n, and together within twice what the capacity for n has grown |
| `StrBuilder.SinglesCostMost` | stdlib/runtime.c:385-410 | appending byte by byte reaches that bound |
| `StrBuilder.JointlyLinearIff` | stdlib/runtime.c:367-397 | every run appending n bytes costs less than 2n in all if and only if the doubling that holds them is less than n + 32 |
| `StrBuilder.SixtyFive` | stdlib/runtime.c:367-397 | 65 bytes are the fewest that can cost 2n or more |
| `FloatText.LayoutIsExact` | stdlib/runtime.c:726-770 | for all digits and exponents the text laid out has a point or an exponent and denotes exactly the decimal value |
| `FloatText.LayoutShape` | stdlib/runtime.c:716-771 | plain decimals exactly for magnitudes from 1e-6 up to but not including 1e21, one nonzero digit and a signed exponent outside; no zeros at the end but the one that has to follow a point |
| `FloatText.LayoutFits` | stdlib/runtime.c:743-770 | with at most 17 digits and a three-digit exponent it fits the 64-byte buffer |
| `FloatText.Layout` | stdlib/runtime.c:743-771 | the writing loops, plain, small and with an exponent, write that text |
| `FloatCheck.ScanIsExact` | stdlib/runtime.c:774-794 | the scan accepts exactly the decimal numbers |
| `FloatCheck.F64Valid` | stdlib/runtime.c:776-794 | and so does `kod_f64_valid` |
| `FloatCheck.JsonNumberIsDecimal` | stdlib/runtime.c:776-794 | every JSON number is one |
| `FloatCheck.FloatTextIsAccepted` | stdlib/runtime.c:719-794 | every float text is accepted by `kod_f64_valid` and by JSON's `is_number_text` |
| `FloatCheck.NumberTextIsUnique` | stdlib/json.kod:588-630 | a number text has one reading, so parsing it can give back one decimal value only |
| `LspState.CacheIsStanding` | stdlib/runtime.c:1108-1136 | over any run the cache holds a pointer exactly when a store still stands, and then that store's pointer, URI and text |
| `LspState.FreshIffGuarded` | stdlib/runtime.c:1099-1136 | the cache never holds a pointer older than the last arena reset if and only if every pointer was made since the last reset when it was stored and every reset comes when no store stands |
| `LspState.HitIsFresh` | stdlib/runtime.c:1099-1136 | if every reset is preceded by `lsp_cache_invalidate` and fresh pointers are stored, a hit is for that exact URI and text, and its pointer was made and stored after the last reset |
| `LspState.DocsAreLastTexts` | stdlib/runtime.c:1035-1079 | a document is the text last set for its URI, unless removed since, and otherwise empty |
| `LspServer.Docs.Find` | stdlib/runtime.c:1026-1033 | the node of that URI, or null exactly when there is none |
| `LspServer.Docs.Get` | stdlib/runtime.c:1058-1064 | the text of the URI, or the empty string |
| `LspServer.Docs.Set` | stdlib/runtime.c:1035-1053 | the list as a map with that URI's text set; no URI twice; exactly the buffers in the list are in use |
| `LspServer.Docs.Remove` | stdlib/runtime.c:1066-1079 | the map without the URI, the node unlinked through the pointer to it, its three blocks freed once |
| `LspServer.Server.CacheStore` | stdlib/runtime.c:1119-1129 | the cache holds the new URI, text and pointer; the old buffers are freed and no other |
| `LspServer.Server.CacheLookup` | stdlib/runtime.c:1108-1113 | a hit exactly when a pointer is held for that URI and text |
| `LspServer.Server.Do` | stdlib/runtime.c:1021-1136 | any call changes and answers as specified, frees only what is in use and loses nothing |
| `LspServer.Run` | stdlib/runtime.c:1000-1136 | any run of calls answers as the calls on values do |

## Left out

- The compiler (`stdlib/kod`, `tools`), its tests and its build: a project of its own.
- HTTP, TLS, TCP, processes, environment, files, clocks, sleeping, panics, profiling: thin layers over the operating system.
- IEEE arithmetic, `snprintf`, `strtod`, zlib's decoding and `malloc`: taken as given. That a float's text parses back to the float follows from `FloatText.LayoutIsExact` only for a `strtod` that depends on the decimal value alone. `nan`, the infinities and the zeros, which are written as constants, are not modelled.
- `malloc` answering NULL where the C code does not look (arena, language server), and negative allocation sizes.
- JSON accessors and builders, `sets`, `fs`, `arrays`, base64, deflate, `Duration` operators: one-line consequences or easy members.
- `MemReader` and `MemWriter` are single cases of the readers and writers that `Streams` quantifies over.
- JSON strings are taken byte-wise, as the code takes them: whether they are UTF-8 is not looked at on either side.
- JSON `Object` values with fewer values than keys are excluded in the emitter: the code then indexes past the end and panics.
- The depth of recursion on the machine's stack, which `max_depth` exists to bound, has no counterpart.
- ProbeCycle.RoundFitsInt64: for tables of at most 2^60 slots, more than any memory holds.
- Calendar.DaysRoundTrip: it and the other calendar results hold over all integers; int64 overflow near the ends of the range is not modelled there.
- MergeSort.SortedBy: indices are unbounded, so `run + run` is not limited to int64; `sorted`, which calls it with `<`, has no member of its own.
- Streams.BufReader.ReadUntil: after an error the contract bounds how much is lost but does not fix it, because it depends on the pieces the inner reader returned.
- StreamRuns.ChunkingIsInvisible: plain `read` is excluded, since its piece sizes are the inner reader's by design; a chunk size below 1, with which `read_until` gets at nothing, is compared with another such.
- JsonRpc.Stdin.ReadMessage: an I/O error on stdin is taken as its end, as the C library shows it; allocating an announced length that memory cannot hold is not modelled.
- Inflate.KodInflate: `inflateReset` is taken to succeed after the end of a member, as zlib documents; the message of a fault is zlib's own and is not cut to 127 bytes.
- Arena.Arena.Alloc: addresses are unbounded numbers, and `malloc` never answers NULL.
- ArrayHeap.ArrayHeap.Append: elements are integers in slots; that `cap` doubling stays within int64 is not modelled.
- LspState.FreshIffGuarded: a stored pointer is taken to have been made before it is stored, and at a known number of resets.
