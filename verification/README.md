# CoflowSim: verified models

Dafny models of the algorithms that CoflowSim is built on, with proofs of what they promise. They cover
the parsers, the printer, the arithmetic and the queue that the simulator takes from RapidJSON and
spdlog, and the thread pool, the scheduler and the message framing of its own.

`dafny verify dfyconfig.toml` checks everything. Each part has a definition of what is to be computed
(a language, a grammar, a value in the naturals, a set of runs), methods with the loops and updates
of the source proved against that definition, and the laws of the definition.

- **Regular expressions** (`regex_*.dfy`). `regex_language` says what an expression denotes,
  `regex_pattern` what a pattern text denotes, `regex_yard` and `regex_parsing` how the text becomes an
  expression, `regex_nfa`, `regex_build` and `regex` how the state array is built in place,
  `regex_semantics` and `regex_termination` why it accepts the language, `regex_search` and
  `regex_engine_search` how it is run, and `regex_correctness` joins them.
- **Bounded queue and log worker** (`mpmc_queue*.dfy`, `async_log.dfy`): a state machine in which every
  shared access is a step, and the worker on top of it.
- **JSON** (`json_*.dfy`): the recursive parser, the table-driven parser, the writer, and documents.
  `json_grammar` is a grammar that calls none of their functions, and `json_grammar_documents` shows that
  both parsers accept exactly its documents, with their meaning.
- **Encodings, integers** (`utf.dfy`, `itoa.dfy`, `biginteger*.dfy`).
- **Printing doubles** (`diyfp.dfy`, `cached_powers.dfy`, `grisu*.dfy`): significands with binary exponents,
  the table of powers of ten, the generation of digits, and the round trip.
- **JSON pointers** (`pointer_*.dfy`): their texts with a grammar of them, resolving, setting and erasing,
  and what becomes of the document.
- **Pool allocator** (`memory_pool.dfy`).
- **Thread pool, scheduler, framing** (`thread_pool.dfy`, `coflow.dfy`, `scheduler*.dfy`,
  `message_framing.dfy`).

`powers`, `characters` and `wrappers` hold what several parts share. Code points, bytes and characters are
integers in the JSON and regex parts. A failing `RAPIDJSON_ASSERT` is an outcome of its own in the regex
parser and a precondition elsewhere.

Where the code does not do what its documentation or its purpose says, the models follow the code and
say exactly when:

- a search discards a match of the empty text, which some patterns depend on (`PatternMissesIff`);
- the guards against overflow of a quantifier and of a pointer index let some numbers wrap
  (`ParseUnsignedExactIff`, `RightIndexIff`);
- a big integer shifted by whole limbs, or subtracted, can come out wrong (`ShiftLeft`, `Difference`);
- the digits printed for a double can end in zeros (`ZeroIff`, `EndsInZeroExample`);
- zero with a large exponent is rejected as too big (`TooBigIsZeroOrHuge`, `ZeroTooBig`);
- overlapping appends can exceed the cap on threads (`CapKeptIff`), and the queue of tasks takes one more
  than its limit (`QueueWithinIff`);
- repeated reports can end a schedule early (`ReturnsEarlyIff`);
- the receive buffer can be overrun (`AlwaysFitsIff`), and a stray closing parenthesis makes the delivered
  payloads depend on the chunks (`CutsDoNotMatterIff`).

## Model

| member | source | states |
|---|---|---|
| RegexCorrectness.MatchPattern | thirdparty/rapidjson/internal/regex.h:192-704 | For every pattern tree whose star, plus and open-ended loops cannot match empty: parsing its text, building the automaton and running `Match` answers true exactly on the strings that the pattern denotes |
| RegexCorrectness.SearchPattern | thirdparty/rapidjson/internal/regex.h:634-682 | The same for `Search`, which answers true exactly if some substring allowed by the anchors is denoted, and in a non-empty subject not empty |
| RegexCorrectness.PatternMissesIff | thirdparty/rapidjson/internal/regex.h:655-682 | `Search` finds what is denoted in every subject in which something is, if and only if the pattern is anchored at both ends, does not denote the empty text, or denotes every single character |
| RegexSearch.SearchMissesIff | thirdparty/rapidjson/internal/regex.h:655-682 | The same condition on the compiled expression: the result of the first `AddState`, which sees a match of the empty text, is discarded |
| RegexSearch.SearchMissesExample | thirdparty/rapidjson/internal/regex.h:655-661 | A concrete missed occurrence: `a*` in `b`, unanchored |
| RegexParsing.CompilesPattern | thirdparty/rapidjson/internal/regex.h:192-319 | The shunting yard accepts the text of every well-formed pattern and assembles exactly the expression of its tree: precedence, grouping, classes, escapes, quantifiers and anchors |
| RegexMeaning.DenotesIffMember | thirdparty/rapidjson/internal/regex.h:356-447 | Expanding counted quantifiers into copies, optional copies and a loop keeps the language of the pattern |
| RegexMeaning.QuantifierMeaning | thirdparty/rapidjson/internal/regex.h:410-447 | The operands made for {n,m} denote between n and m repetitions; those for {n,} at least n |
| RegexMeaning.TokenMeaning | thirdparty/rapidjson/internal/regex.h:481-583 | What the parser makes of a character, an escape, a dot or a bracket expression accepts exactly what the token stands for, by a table of the documented escapes |
| RegexCorrectness.SpellingDenotes | thirdparty/rapidjson/internal/regex.h:557-583 | For every text and every spelling of it, in characters without a meaning of their own and documented escapes: the pattern denotes this text and no other |
| RegexCorrectness.SpelledOut | thirdparty/rapidjson/internal/regex.h:557-583 | Every text can be spelled so |
| RegexCorrectness.MatchSpelling | thirdparty/rapidjson/internal/regex.h:557-583 | Compiling such a spelling and matching it against a subject is comparing the text with the subject |
| RegexCorrectness.PatternRejected | thirdparty/rapidjson/internal/regex.h:557-583 | A backslash before any other letter, at the beginning or behind any pattern, is rejected |
| RegexCorrectness.ClassRejected | thirdparty/rapidjson/internal/regex.h:481-549 | In brackets, where the escape for a backspace is known too, a backslash before any other letter is rejected behind any items |
| RegexParsing.ParseUnsignedExactIff | thirdparty/rapidjson/internal/regex.h:466-479 | The quantifier number is read exactly if and only if it is below 2^32 |
| RegexParsing.ParseUnsignedRefusedIff | thirdparty/rapidjson/internal/regex.h:466-479 | A quantifier number is refused exactly if a digit above 5 stands behind a number that is, in 32 bits, at least 429496729 |
| RegexParsing.ParseUnsignedWraps | thirdparty/rapidjson/internal/regex.h:466-479 | The overflow guard lets 4294967300 through, which is read as 4 |
| RegexEngine.GenericRegex.constructor | thirdparty/rapidjson/internal/regex.h:122-319 | Compiling a source either gives the automaton of the expression that the yard reads, or rejects, or meets a failing assertion, in exactly the cases of the yard |
| RegexEngine.GenericRegex.Parse | thirdparty/rapidjson/internal/regex.h:192-319 | The parser over state array, operand stack and operator stack refines the yard, and links one matching state behind the whole automaton |
| RegexEngine.GenericRegex.Eval | thirdparty/rapidjson/internal/regex.h:356-408 | One operator on the operand stack: the fragments keep partitioning the state array into contiguous ranges, each the automaton of its expression with its exits chained through `out` |
| RegexEngine.GenericRegex.EvalQuantifier | thirdparty/rapidjson/internal/regex.h:410-449 | A counted quantifier replaces the top operand by fragments for the expanded expression |
| RegexEngine.GenericRegex.CloneTopOperand | thirdparty/rapidjson/internal/regex.h:451-464 | Copying a state range and shifting its links gives a second fragment for the same expression |
| RegexEngine.GenericRegex.Patch | thirdparty/rapidjson/internal/regex.h:349-354 | Every state of an acyclic exit list gets the target, and no other state changes |
| RegexEngine.GenericRegex.Append | thirdparty/rapidjson/internal/regex.h:341-347 | Joining two exit lists changes the link of the last exit of the first and nothing else |
| RegexEngine.GenericRegex.ParseRange | thirdparty/rapidjson/internal/regex.h:481-549 | A bracket expression becomes a chain of ranges with the intervals and the negation that the yard reads |
| RegexSemantics.Thompson | thirdparty/rapidjson/internal/regex.h:356-408 | Thompson construction, by induction over the expression: from the start of a wired fragment a text is accepted exactly if it splits into a member of the language and a text accepted from the exit |
| RegexTermination.CycleFreeIff | thirdparty/rapidjson/internal/regex.h:686-699 | The automaton has no cycle of empty steps if and only if no loop is over a nullable operand; this is when `AddState` terminates on its recursion |
| RegexCorrectness.PatternCycleFreeIff | thirdparty/rapidjson/internal/regex.h:192-464 | The same condition on the pattern that the caller writes |
| RegexTermination.AutomatonAccepts | thirdparty/rapidjson/internal/regex.h:192-464 | The compiled automaton accepts exactly the language of the expression |
| RegexSearching.GenericRegexSearch.SearchWithAnchoring | thirdparty/rapidjson/internal/regex.h:648-682 | The two-list simulation with its bit set finds exactly the occurrences of `FoundOccurrence`, in one pass |
| RegexSearching.GenericRegexSearch.AddState | thirdparty/rapidjson/internal/regex.h:686-699 | Adds exactly the states reachable by empty steps, each once, never more than there are states, and reports whether the matching state is among them |
| RegexSearching.GenericRegexSearch.MatchRange | thirdparty/rapidjson/internal/regex.h:701-709 | Membership in a chained list of ranges, negated or not |
| RegexSearching.GenericRegexSearch.Match | thirdparty/rapidjson/internal/regex.h:624-626 | Anchored at both ends: membership in the language |
| RegexSearching.GenericRegexSearch.Search | thirdparty/rapidjson/internal/regex.h:634-636 | With the anchors of the pattern |
| RegexSearch.LiveStep | thirdparty/rapidjson/internal/regex.h:660-679 | One turn of the simulation: the next list can accept a rest exactly if the present one accepts the character and the rest, or the search restarts |
| RegexLanguage.IteratedIsClosure | thirdparty/rapidjson/internal/regex.h:393-406 | The language of a star is the closure under concatenation of finitely many members |
| MpmcQueue.RunInv | thirdparty/spdlog/details/mpmc_bounded_q.h:83-134 | The invariant of cells, tickets and threads holds in every state of every interleaving of any number of producers and consumers |
| MpmcQueue.StepKeeps | thirdparty/spdlog/details/mpmc_bounded_q.h:83-134 | Each load, compare-exchange, write, publish, read and release keeps it, from any state that has it |
| MpmcQueue.PositionsBounded | thirdparty/spdlog/details/mpmc_bounded_q.h:86-130 | dequeue_pos never passes enqueue_pos, which is never more than the capacity ahead |
| MpmcQueue.TicketsMatch | thirdparty/spdlog/details/mpmc_bounded_q.h:83-134 | The item taken under the k-th dequeue ticket is the item of the k-th enqueue ticket |
| MpmcQueue.RunHistoryGrows | thirdparty/spdlog/details/mpmc_bounded_q.h:83-134 | Tickets keep their items for ever, and what has been taken stays taken |
| MpmcQueue.NothingOverwritten | thirdparty/spdlog/details/mpmc_bounded_q.h:106-107 | A cell is written only after every earlier item put in it has been taken |
| MpmcQueue.OneThreadPerCell | thirdparty/spdlog/details/mpmc_bounded_q.h:106-132 | No two threads hold claimed tickets for the same cell |
| MpmcQueue.RefusedWasFull | thirdparty/spdlog/details/mpmc_bounded_q.h:86-127 | In any run: an `enqueue` that has returned false did so after a load of its own at an instant when the cell of the next ticket was not released, and a `dequeue` that found nothing after one when the next item was not published |
| MpmcQueue.QuiescentContents | thirdparty/spdlog/details/mpmc_bounded_q.h:83-134 | When no call is in progress the cells hold exactly the items between the two positions, and exactly the earlier tickets are taken |
| MpmcQueue.PushedOnce | thirdparty/spdlog/details/mpmc_bounded_q.h:83-109 | An enqueue in progress, retried as often as needed, has claimed at most one ticket for its item, and exactly one once it is accepted |
| MpmcQueue.FetchedOnce | thirdparty/spdlog/details/mpmc_bounded_q.h:111-134 | A dequeue in progress among any others has claimed at most one ticket, and exactly one once it delivers an item, which is the item enqueued under that ticket |
| MpmcQueue.ReadIsEnabled | thirdparty/spdlog/details/mpmc_bounded_q.h:131-132 | A consumer that has claimed a ticket finds an item in the cell |
| MpmcQueueAlone.AloneReturns | thirdparty/spdlog/details/mpmc_bounded_q.h:83-134 | From every state that has the invariant, whatever the other threads were doing and however stale its position, a call that goes on alone without spurious failures returns after at most six steps |
| MpmcQueueCalls.MpmcBoundedQueue.Enqueue | thirdparty/spdlog/details/mpmc_bounded_q.h:83-109 | With no other call in progress the loop, however often its compare-exchange fails for no reason, appends the item if and only if there is room and otherwise changes nothing; each of its accesses is a step of the state machine |
| MpmcQueueCalls.MaskIsSlot | thirdparty/spdlog/details/mpmc_bounded_q.h:89 | For a power of two the masked position is the cell of the ticket |
| MpmcQueueCalls.MpmcBoundedQueue.Dequeue | thirdparty/spdlog/details/mpmc_bounded_q.h:111-134 | The same for taking the oldest item, or reporting an empty queue |
| AsyncLog.RunLogInv | thirdparty/spdlog/details/async_log_helper.h:225-356 | The worker with its flags, the queue and the sinks keep their joint invariant in every run, under either overflow policy and with exceptions of the formatter, the sinks and the flush; a flush is requested exactly if a flush or terminate message has been handled since the last one |
| AsyncLog.SinksInTicketOrder | thirdparty/spdlog/details/async_log_helper.h:267-325 | At any time the messages handled are those of the first tickets, and each sink has been given exactly those at certain positions: log messages that its level admits, and that no exception, of the formatter or of a sink up to this one, kept from it; in ticket order, each once |
| AsyncLog.ExitFlushes | thirdparty/spdlog/details/async_log_helper.h:319-347 | A worker that has exited did so at an empty queue, where it flushed every sink with all that it has been given, and has handled nothing after that flush |
| AsyncLog.RequestIsMet | thirdparty/spdlog/details/async_log_helper.h:279-347 | Once a flush or terminate message has been handled, the next empty queue at which the flush does not throw has every sink flushed with all that it has been given |
| AsyncLog.FlushesIff | thirdparty/spdlog/details/async_log_helper.h:339-350 | All sinks are flushed exactly at the empty queues where the flush does not throw and the interval has expired or a flush or terminate message has been handled since the last flush |
| AsyncLog.FlushedOnlyIf | thirdparty/spdlog/details/async_log_helper.h:339-350 | No single sink is flushed elsewhere either, also when the flush of another one throws |
| AsyncLog.ExitDeliversAll | thirdparty/spdlog/details/async_log_helper.h:267-337 | When the worker has exited, every message with a ticket before the first terminate message has been handled, and each sink begins with those it got |
| AsyncLog.ExitDeliversEarlier | thirdparty/spdlog/details/async_log_helper.h:225-337 | The same for every message that had a ticket at a time when no terminate message had one |
| AsyncLog.CallEnqueues | thirdparty/spdlog/details/async_log_helper.h:244-257 | Under block_retry a call of `log` that has returned has put its message in the queue, after any number of refusals |
| AsyncLog.ReturnedIsDelivered | thirdparty/spdlog/details/async_log_helper.h:225-337 | Under block_retry a message whose call of `log` returned before any terminate message had a ticket has been handled when the worker has exited, and is in every sink that got it |
| JsonAgreement.ParsersAgree | thirdparty/rapidjson/reader.h:558-590 | For every text, every handler and every choice of comments, trailing commas and stop-when-done, the recursive and the table-driven parser give the same events and the same result or error code, except that a text that begins with one of , : ] } is ValueInvalid for the one and DocumentEmpty for the other |
| JsonBuilding.SameSuccess | thirdparty/rapidjson/reader.h:558-590 | The two parsers succeed on the same texts, with the same events |
| JsonGrammarDocuments.ParsesIff | thirdparty/rapidjson/reader.h:558-590 | Against a grammar of JSON that is written with the numbers of its characters and calls no function of the reader: for every choice of comments and trailing commas, without the flag that stops behind the value, each parser reads a text, to its end or to a zero byte, with certain events, if and only if it is a document of the grammar that has these events |
| JsonGrammarDocuments.ParseText | thirdparty/rapidjson/document.h:2237-2253 | Parsing a text into a document, with either parser, succeeds exactly if the grammar derives the text, and gives the value that the grammar gives to every derivation of it |
| JsonGrammarDocuments.ReadIsDocument | thirdparty/rapidjson/reader.h:558-590 | Whatever either parser reads to its end with any handler is a document, and the handler has been given its events |
| JsonGrammarDocuments.FirstValueIsRead | thirdparty/rapidjson/reader.h:566-589 | With the flag that stops behind the value, a gap and a value are read whatever follows, except for a number what could belong to it |
| JsonGrammarTrees.ValueIsRead | thirdparty/rapidjson/reader.h:1724-1737 | Every value of the grammar, with any blanks and comments before, between and behind its tokens, is read up to its end, with its events |
| JsonGrammarReading.ValueIsTree | thirdparty/rapidjson/reader.h:1724-1737 | Whatever is read as a value is one of the grammar, with these events |
| JsonGrammarGaps.GapIsSkipped | thirdparty/rapidjson/reader.h:266-271 | Any sequence of blanks, tabs, line feeds and carriage returns, and of comments if they are allowed, is skipped |
| JsonGrammarGaps.SkipIsGap | thirdparty/rapidjson/reader.h:711-737 | Nothing else is skipped, but for a comment at the end of the text whose line is not ended |
| JsonGrammarTokens.CharsAreRead | thirdparty/rapidjson/reader.h:991-1056 | Every string of the grammar is read as its bytes: every escape by the table of the grammar, hexadecimal digits of either case, surrogate pairs |
| JsonGrammarTokens.StringIsChars | thirdparty/rapidjson/reader.h:991-1056 | Whatever is read as a string is one of the grammar, with these bytes |
| JsonGrammarTokens.NumberIsRead | thirdparty/rapidjson/reader.h:1456-1721 | Every number of the grammar, with fraction and exponent or without, gives its event, the narrowest integer type or a double with this literal, unless it is too big: that is said by its digits and the value of its exponent |
| JsonGrammarTokens.NumberIsNumeral | thirdparty/rapidjson/reader.h:1456-1721 | Whatever is read as a number is one of the grammar that is not too big, with this event |
| JsonGrammarFaults.StringFailsIff | thirdparty/rapidjson/reader.h:991-1056 | A string is refused with a code exactly if, behind some characters of the grammar, there is the fault that has this code: no quote before the end, a control character, an unknown escape, missing hexadecimal digits, or a surrogate without its partner |
| JsonGrammarFaults.NoDigitFails | thirdparty/rapidjson/reader.h:1470-1534 | Without a digit, behind a minus sign or not, there is no value |
| JsonGrammarFaults.NoFractionFails | thirdparty/rapidjson/reader.h:1563-1580 | A point without a digit behind it is a missing fraction, if the digits before it are not too many |
| JsonGrammarFaults.NoExponentFails | thirdparty/rapidjson/reader.h:1625-1656 | The letter of an exponent, with a sign or not, without a digit behind it is a missing exponent, on the same condition |
| JsonBuilding.ParseBuildsOneValue | thirdparty/rapidjson/document.h:2237-2253 | The events of any successful parse, fed to the handlers of a document, leave exactly one value on an empty stack |
| JsonDocument.EventsBuild | thirdparty/rapidjson/document.h:2415-2455 | The events of any value push exactly that value, on top of any stack, which stays as it was beneath |
| JsonGrammarDocuments.TreeBuilds | thirdparty/rapidjson/document.h:2415-2455 | The events of any value of the grammar, fed to the handlers, push the value that the grammar gives it |
| JsonGrammarDocuments.PrintedIsDocument | thirdparty/rapidjson/writer.h:183-257 | What is printed for a double-free value is a document of the grammar, without comments and without trailing commas, whose value it is |
| JsonRoundTrip.ParsesPrinted | thirdparty/rapidjson/writer.h:183-257 | The text printed for any double-free value is parsed by both parsers, with any flags, into the events that rebuild it |
| JsonRoundTrip.PrintedIff | thirdparty/rapidjson/writer.h:378-450 | A double-free value can be written to a UTF-8 target always, to an ASCII target exactly if all its strings are well-formed UTF-8 |
| JsonDocument.AcceptedAs | thirdparty/rapidjson/document.h:1876-1881 | An integer is accepted with the first of int, unsigned, int64 and uint64 that holds it |
| JsonRoundTrip.AcceptCopies | thirdparty/rapidjson/document.h:1846-1883 | A value accepted by a document is copied |
| JsonParseStream.WriteAndParse | thirdparty/rapidjson/document.h:2237-2253 | Writing a double-free value with `Accept` and parsing the output gives the value back, with either parser |
| JsonParseStream.GenericDocument.ParseStream | thirdparty/rapidjson/document.h:2237-2253 | Succeeds exactly if the text is a document; then the one value built becomes the root and the stack is empty again; otherwise the root is kept |
| JsonParseStream.GenericDocument.EndObject | thirdparty/rapidjson/document.h:2443-2449 | Replaces the names and values on top of the stack by the members of the object beneath them |
| JsonParseStream.GenericDocument.EndArray | thirdparty/rapidjson/document.h:2451-2455 | Replaces the elements on top of the stack by the elements of the array beneath them |
| JsonParser.GenericReader.ParseRecursively | thirdparty/rapidjson/reader.h:558-590 | The recursive parser over the stream cursor, the handler and the error state refines the recursive grammar |
| JsonParser.GenericReader.ParseIteratively | thirdparty/rapidjson/reader.h:2163-2196 | The loop over the transition table, with its explicit stack, refines the machine |
| JsonParser.GenericReader.ParseValue | thirdparty/rapidjson/reader.h:1724-1737 | One value: cursor, events and error as the grammar says, stack untouched |
| JsonParser.GenericReader.ParseObject | thirdparty/rapidjson/reader.h:739-805 | One object, with member count, trailing commas and the error of each missing part |
| JsonParser.GenericReader.ParseArray | thirdparty/rapidjson/reader.h:807-853 | One array, with element count and trailing commas |
| JsonParser.GenericReader.Transit | thirdparty/rapidjson/reader.h:1982-2133 | One transition with its pushes, pops, counts and handler calls |
| JsonParser.GenericReader.SkipWhitespaceAndComments | thirdparty/rapidjson/reader.h:711-737 | Skips what the definition skips; an unclosed comment is an error |
| JsonReader.TransitKeeps | thirdparty/rapidjson/reader.h:1816-2133 | Every predicted transition is possible on the stack at hand, keeps state and stack matched, and takes input |
| JsonWriter.Accept | thirdparty/rapidjson/document.h:1846-1883 | Writing a value appends exactly its printed text behind the separator that its place needs, and fails exactly if a string cannot be transcoded |
| JsonWriter.Writer.Prefix | thirdparty/rapidjson/writer.h:470-488 | Puts a comma or colon exactly where the counts of the open level call for it, and counts the value |
| JsonWriter.Writer.Start | thirdparty/rapidjson/writer.h:217-246 | Opens a level |
| JsonWriter.Writer.End | thirdparty/rapidjson/writer.h:232-257 | Closes the open level and leaves those beneath as they were |
| JsonWriter.Writer.String | thirdparty/rapidjson/writer.h:204-209 | Separator and quoted string, or failure |
| JsonStrings.ReadsWritten | thirdparty/rapidjson/writer.h:378-450 | Every string that is written is read back unchanged, whatever follows: for a UTF-8 target every byte string, for an ASCII target through unicode escapes and surrogate pairs |
| JsonStrings.WrittenIff | thirdparty/rapidjson/writer.h:378-450 | A UTF-8 target takes every byte string, an ASCII target exactly the well-formed ones |
| JsonStrings.WrittenAscii | thirdparty/rapidjson/writer.h:404-425 | What is written for an ASCII target is ASCII |
| JsonStrings.WriteString | thirdparty/rapidjson/writer.h:378-450 | The loop writes the quoted string, or fails on the first malformed sequence |
| JsonStrings.ParseStringToStream | thirdparty/rapidjson/reader.h:991-1056 | The loop reads the string that the escapes spell, or reports the error of the first bad escape, surrogate, control character or missing quote |
| JsonStrings.ParseHex4 | thirdparty/rapidjson/reader.h:906-925 | Four hexadecimal digits of either case, or the error |
| JsonStrings.ReadWrittenUnicode | thirdparty/rapidjson/reader.h:1019-1031 | A written unicode escape, of one or two units, is read as its code point |
| Utf.DecodeIsDecodedChar | thirdparty/rapidjson/encodings.h:146-176 | One call of the table-driven decoder succeeds exactly on the well-formed sequences of section 4 of RFC 3629, with their code point and the rest |
| Utf.DecodesIffWellFormed | thirdparty/rapidjson/encodings.h:146-176 | Decoding to the end succeeds exactly on concatenations of well-formed sequences |
| Utf.EncodeDecoded | thirdparty/rapidjson/encodings.h:102-121 | Encoding what was decoded gives the text back |
| Utf.DecodeEncoded | thirdparty/rapidjson/encodings.h:102-176 | Decoding what was encoded gives the code points back |
| Utf.ValidateIffWellFormed | thirdparty/rapidjson/encodings.h:179-201 | `Validate` accepts exactly the well-formed sequences |
| Utf.DecodeEncoded16 | thirdparty/rapidjson/encodings.h:276-322 | Decoding UTF-16 gives the encoded code points back, surrogate pairs included |
| Utf.DecodesIffPaired | thirdparty/rapidjson/encodings.h:307-322 | UTF-16 decoding to the end succeeds exactly on the texts whose surrogates are paired (section 2 of RFC 2781) |
| Utf.EncodeDecoded16 | thirdparty/rapidjson/encodings.h:276-322 | Encoding the decoded units gives the text back |
| Utf.TranscodeThereAndBack | thirdparty/rapidjson/encodings.h:658-667 | UTF-8 to UTF-16 and back is the identity exactly on the well-formed texts; other texts are refused |
| JsonNumbers.ParseNumber | thirdparty/rapidjson/reader.h:1456-1721 | The loops with their guards classify every number text as the grammar does, with value and rest: int32 or int64 after a minus sign, otherwise uint32 or uint64, otherwise double, or too big for one |
| JsonNumbers.ParseInteger | thirdparty/rapidjson/reader.h:1475-1561 | The accumulators of 32 and of 64 bits never wrap, and each is left exactly if the value needs more |
| JsonNumbers.ParseInteger64 | thirdparty/rapidjson/reader.h:1536-1561 | The 64-bit accumulator never wraps, and the number becomes a double exactly if its value does not fit |
| JsonNumbers.ParseDoubleDigits | thirdparty/rapidjson/reader.h:1564-1570 | A number is too big exactly if its digits before the last reach 1.7976931348623157e307 |
| JsonNumbers.ParseFraction | thirdparty/rapidjson/reader.h:1573-1616 | Counts the digits of the fraction that go into the significand, by the 53 bits and the seventeen digits |
| JsonNumbers.TooBigIsZeroOrHuge | thirdparty/rapidjson/reader.h:1566-1651 | A number rejected as too big is zero, at least 10^309, or has an integer part of at least 1.7976931348623157e308 |
| JsonNumbers.ZeroTooBig | thirdparty/rapidjson/reader.h:1646-1651 | 0e309 is rejected |
| JsonNumbers.ParseDigits | thirdparty/rapidjson/reader.h:1487-1561 | A digit loop under the guard takes digits exactly while the value stays within the bound |
| Itoa.U32ToA | thirdparty/rapidjson/internal/itoa.h:39-111 | Appends the shortest decimal numeral, in at most 10 characters |
| Itoa.U64ToA | thirdparty/rapidjson/internal/itoa.h:123-289 | Appends the shortest decimal numeral, in at most 20 characters |
| Itoa.I32ToA | thirdparty/rapidjson/internal/itoa.h:113-121 | The same behind a minus sign for negative numbers, the least one included |
| Itoa.I64ToA | thirdparty/rapidjson/internal/itoa.h:291-299 | The same for 64 bits |
| Itoa.DecimalValue | thirdparty/rapidjson/internal/itoa.h:39-111 | The numeral has the value that was printed; its first digit is zero only for zero |
| Itoa.ReadsPrinted | thirdparty/rapidjson/reader.h:1469-1561 | Parsing a printed integer gives the integer back, in the narrowest of the four types |
| BigIntegers.BigInteger.FromDecimals | thirdparty/rapidjson/internal/biginteger.h:40-53 | Holds exactly the decimal value of the digits, in normalised limbs, whenever the multiplications of the last turn fit in the buffer |
| BigIntegers.ShortDecimalsFit | thirdparty/rapidjson/internal/biginteger.h:40-53 | Any 7885 digits do |
| BigIntegers.BigInteger.Add | thirdparty/rapidjson/internal/biginteger.h:70-85 | Adds, with the carry through all limbs and a new limb when needed |
| BigIntegers.BigInteger.Multiply64 | thirdparty/rapidjson/internal/biginteger.h:87-103 | Multiplies by a 64-bit number in place |
| BigIntegers.BigInteger.Multiply32 | thirdparty/rapidjson/internal/biginteger.h:105-126 | Multiplies by a 32-bit number in place |
| BigIntegers.BigInteger.ShiftLeft | thirdparty/rapidjson/internal/biginteger.h:128-152 | Multiplies by the power of two if and only if the shift is not by whole limbs, or the limbs below the top one already lie where they are to be: only the top limb is moved |
| BigIntegers.BigInteger.MultiplyPow5 | thirdparty/rapidjson/internal/biginteger.h:162-182 | Multiplies by a power of five |
| BigIntegers.BigInteger.Compare | thirdparty/rapidjson/internal/biginteger.h:208-219 | The sign of the difference of the numbers |
| BigIntegers.BigInteger.AppendDecimal64 | thirdparty/rapidjson/internal/biginteger.h:224-232 | Appends up to 19 digits to the decimal numeral held |
| BigIntegers.BigInteger.Difference | thirdparty/rapidjson/internal/biginteger.h:184-206 | The sign is right; the limbs hold at least the absolute difference, and exactly that if and only if no borrow meets a limb of all ones of the smaller number |
| BigIntegerLimbs.SubtractedVal | thirdparty/rapidjson/internal/biginteger.h:194-203 | The same law for the limb-wise loop, whose test for a borrow misses that one case |
| BigIntegerLimbs.BorrowLostExample | thirdparty/rapidjson/internal/biginteger.h:195-199 | A borrow lost: 2^128 minus 2^128 - 2^64 + 1 |
| BigIntegers.MulAdd64 | thirdparty/rapidjson/internal/biginteger.h:249-277 | The 128-bit result of a * b + k, by halves, without wrap-around of the parts |
| BigIntegerLimbs.AddedVal | thirdparty/rapidjson/internal/biginteger.h:70-85 | Ripple-carry addition on limbs is addition on values |
| BigIntegerLimbs.MultipliedVal | thirdparty/rapidjson/internal/biginteger.h:87-126 | Limb multiplication with carry is multiplication on values |
| BigIntegerLimbs.OrderIsSign | thirdparty/rapidjson/internal/biginteger.h:208-219 | Comparing limbs from the top is comparing values |
| BigIntegerShift.ShiftedIsMultiplied | thirdparty/rapidjson/internal/biginteger.h:139-149 | Shifting limbs by bits is multiplying by the power of two |
| GrisuDigitGen.DigitGen | thirdparty/rapidjson/internal/dtoa.h:60-110 | The loops over the 64-bit registers p1, p2, delta and the rounding write exactly the digits of the arithmetic definition, without overflow, for the exponents that Grisu2 gives |
| GrisuDigitGen.GrisuRound | thirdparty/rapidjson/internal/dtoa.h:35-42 | Lowers the last digit in the buffer as often as the definition says |
| GrisuDigits.GeneratedWithin | thirdparty/rapidjson/internal/dtoa.h:60-110 | The digits begin with a nonzero digit, and as a number times their power of ten lie between the lower boundary Mp - delta and Mp |
| GrisuZeros.ZeroIff | thirdparty/rapidjson/internal/dtoa.h:35-110 | The digits end in a zero if and only if the lower boundary Mp - delta comes out exactly in k - 1 decimals, delta reaches one unit with the next, and W is closer to that boundary than to the decimal above it |
| GrisuZeros.NeverZeroAbove | thirdparty/rapidjson/internal/dtoa.h:35-110 | They never do when W is at least as close to Mp as to Mp - delta |
| Grisu.CountFits | thirdparty/rapidjson/internal/dtoa.h:44-58 | The digit count of a number below 10^9 brackets it by powers of ten |
| GrisuDoubles.ReadsBack | thirdparty/rapidjson/internal/dtoa.h:112-124 | For every positive finite double: the decimals that Grisu2 prints are nearer to it than to any other double, so that reading them to the nearest gives it back |
| GrisuDoubles.DigitsBetween | thirdparty/rapidjson/internal/dtoa.h:112-124 | They lie strictly between the boundaries half way to the neighbouring doubles, although products and cached powers are rounded |
| GrisuDoubles.PrintDigits | thirdparty/rapidjson/internal/dtoa.h:112-124 | Normalising, scaling and generating into the buffer gives these digits, without overflow |
| GrisuDoubles.NormalizedBoundaries | thirdparty/rapidjson/internal/diyfp.h:119-137 | The loops give the two boundaries with the exponent of the upper one |
| GrisuDoubles.EndsInZeroExample | thirdparty/rapidjson/internal/dtoa.h:112-124 | The digits of the double 4503602550366373 * 2^-970, about 4.51e-277, end in zeros |
| DiyFps.BoundaryShift | thirdparty/rapidjson/internal/diyfp.h:101-137 | A double and its upper boundary are shifted by the same number of bits, into 64 bits |
| DiyFps.ScaledError | thirdparty/rapidjson/internal/diyfp.h:70-95 | A product with a power of ten that is rounded to 64 bits is itself less than one unit off |
| DiyFps.OfBitsIsDouble | thirdparty/rapidjson/internal/diyfp.h:48-64 | The bits of every finite double are decoded into a significand of 53 bits or a subnormal one, and only those |
| DiyFps.DoubleHasBits | thirdparty/rapidjson/internal/diyfp.h:48-64 | Every such double has bits |
| CachedPowers.CachedIsPowerOfTen | thirdparty/rapidjson/internal/diyfp.h:164-224 | Each of the 87 entries of the table is its power of ten, rounded to the nearest in 64 bits |
| CachedPowers.CachedSuits | thirdparty/rapidjson/internal/diyfp.h:226-238 | The entry chosen for a boundary of a double gives it an exponent from -60 to -34 and an integral part of at most nine digits |
| PointerText.Parse | thirdparty/rapidjson/pointer.h:807-937 | The cursor loop over a name buffer of the length of the source gives the tokens of the definition, or its error, and never writes beyond the buffer |
| PointerText.CopyPercentChar | thirdparty/rapidjson/pointer.h:846-853 | A percent sequence is copied as far as its first byte asks, well-formed or not, within the buffer, and accepted exactly if it is a whole UTF-8 character |
| PointerText.ReadsStringified | thirdparty/rapidjson/pointer.h:945-977 | Parsing a stringified pointer gives the same tokens, as a string and as a URI fragment (sections 3 and 6 of RFC 6901) |
| PointerText.StringifiedIff | thirdparty/rapidjson/pointer.h:945-977 | Every pointer can be written as a string; as a URI fragment exactly those with well-formed UTF-8 names |
| PointerText.Stringify | thirdparty/rapidjson/pointer.h:945-977 | The loop writes what the definition says |
| PointerText.ParseName | thirdparty/rapidjson/pointer.h:829-911 | One token name: escapes, percent triplets and the slash that ends it |
| PointerText.RightIndexIff | thirdparty/rapidjson/pointer.h:898-922 | A numeral becomes an index, and the right one, if and only if its value is below 2^32 - 1; otherwise it is marked as no index or wraps around |
| PointerText.IndexWraps | thirdparty/rapidjson/pointer.h:912-918 | The overflow test misses 9999999999, which becomes index 1410065407 |
| PointerText.TokensConsistent | thirdparty/rapidjson/pointer.h:890-930 | Parsed tokens meet what the laws below ask: the index is a function of the name and no two names share one |
| PointerGrammar.ParsesIff | thirdparty/rapidjson/pointer.h:807-937 | Against a grammar that is written with the numbers of its characters: a text is read exactly if it is a pointer of it, as a string or a fragment, with escapes, and triplets that are well-formed UTF-8, and then to the names of its derivation |
| PointerGrammar.FaultRefused | thirdparty/rapidjson/pointer.h:829-911 | Behind any names and the beginning of another one, a character that a fragment must encode, a triplet that begins no well-formed UTF-8, and a tilde without its digit are refused, each with its error |
| PointerGrammar.NoSolidusRefused | thirdparty/rapidjson/pointer.h:811-826 | A text that does not begin with a solidus, behind the number sign if there is one, is refused as such |
| PointerGrammar.StringifiedIs | thirdparty/rapidjson/pointer.h:945-977 | What is written is a text of the grammar with the names of the pointer; in a fragment only letters, digits, - . _ stand for themselves, and all else is triplets, escapes and solidi |
| PointerTree.Get | thirdparty/rapidjson/pointer.h:484-512 | The walk finds the value that the pointer resolves to, or the first token that does not resolve |
| PointerEdit.Tree.Create | thirdparty/rapidjson/pointer.h:406-452 | The walk of the cursor, converting and padding containers in place: what is written where it ends is what `Set` puts there, alreadyExist is true exactly if the pointer resolved before, and the value found is the old one or a null |
| PointerEdit.Tree.SetValue | thirdparty/rapidjson/pointer.h:615-622 | The document becomes that of `Set`, and nothing else |
| PointerEdit.Tree.Erase | thirdparty/rapidjson/pointer.h:716-757 | The document becomes that of `Erased`, of which the laws below speak; a false result changes nothing |
| PointerTree.SetThenGetIff | thirdparty/rapidjson/pointer.h:406-452 | What was set is what is got, if and only if no dash appended to an array on the way; otherwise nothing is got |
| PointerTree.ExistsIffResolves | thirdparty/rapidjson/pointer.h:406-452 | Nothing is created on the way exactly if the pointer resolved before |
| PointerTree.SetKeepsOthersIff | thirdparty/rapidjson/pointer.h:406-452 | Every pointer that resolves and parts from the one set still resolves to its old value, if and only if the container in which they part is not an array that the set replaces by an object; then it resolves to nothing |
| PointerTree.ErasedIff | thirdparty/rapidjson/pointer.h:716-757 | Everything that resolves can be erased, except the root |
| PointerTree.EraseUndoesSet | thirdparty/rapidjson/pointer.h:716-757 | Erasing the member that was just set gives the old document |
| PointerEffects.ErasedMakes | thirdparty/rapidjson/pointer.h:716-757 | After erasing what resolves: the container of the last token has lost the position that the token led to, what is behind it having moved up, and each container above has only its child on the way replaced |
| PointerEffects.EraseKeepsOthers | thirdparty/rapidjson/pointer.h:716-757 | A pointer that parts from the erased one before its last token finds what it found before |
| PointerEffects.EraseMovesElements | thirdparty/rapidjson/pointer.h:745-750 | In the array of the erased element, index j finds what it found before if it is below the erased index, and otherwise what j + 1 found |
| PointerEffects.EraseMovesMembers | thirdparty/rapidjson/pointer.h:743-744 | In the object of the erased member, every other name finds what it found, and the erased name the next member of this name or nothing |
| PointerEffects.SetMakes | thirdparty/rapidjson/pointer.h:406-452 | Wherever a pointer has led before, setting makes of the value there, position by position: the container with one value replaced or appended, an array lengthened by nulls, or a new object or array in place of a scalar; and so on for what is created below |
| PointerEffects.ResolveIff | thirdparty/rapidjson/pointer.h:484-512 | A value is found exactly if the tokens lead to it position by position: by the first member of a name, or the element of an index |
| MemoryPools.MemoryPoolAllocator.Malloc | thirdparty/rapidjson/allocators.h:176-189 | Hands out one new block of the aligned size behind all earlier ones, or nothing exactly if the size is zero or a chunk was needed and refused |
| MemoryPools.MemoryPoolAllocator.Realloc | thirdparty/rapidjson/allocators.h:191-222 | Keeps, lengthens or moves the block; what the caller used of it is preserved, and no byte of any other block changes |
| MemoryPools.MemoryPoolAllocator.AddChunk | thirdparty/rapidjson/allocators.h:237-249 | Puts an empty chunk in front and leaves the others |
| MemoryPools.MemoryPoolAllocator.Clear | thirdparty/rapidjson/allocators.h:145-153 | Gives every chunk but the buffer of the user back to the base allocator, once, and empties that buffer |
| MemoryPools.MemoryPoolAllocator.Size | thirdparty/rapidjson/allocators.h:168-173 | The sum of the sizes of all blocks handed out since the last clear |
| MemoryPools.BlocksDisjoint | thirdparty/rapidjson/allocators.h:176-222 | Any two blocks handed out are disjoint |
| MemoryPools.BlockInChunk | thirdparty/rapidjson/allocators.h:185-188 | Every block lies in the used part of one chunk, aligned as that chunk is |
| MemoryPools.MemoryPoolAllocator.BlocksAligned | thirdparty/rapidjson/allocators.h:185-188 | Every block is 8-aligned, if the buffer of the user is |
| MemoryPools.UsedIsHandedOut | thirdparty/rapidjson/allocators.h:168-173 | The used sizes of the chunks add up to the bytes handed out |
| MemoryPools.LastBlock | thirdparty/rapidjson/allocators.h:205-212 | The test for growing in place recognises exactly the newest block, also across chunks |
| ThreadPools.RunKeepsLaws | src/common/lib/ThreadPool.cpp:35-96 | In every interleaving: appended tasks are the popped ones followed by the queue; the queue is the task permits plus the tasks pushed and not posted, abandoned by an exception, or claimed and not popped; and task permits, free permits and appends about to post are together the waiting workers plus the appends that met the cap |
| ThreadPools.PopFindsTask | src/common/lib/ThreadPool.cpp:66-76 | A worker that got a permit never finds the queue empty |
| ThreadPools.PoppedInAppendOrder | src/common/lib/ThreadPool.cpp:35-76 | The k-th task popped is the k-th task appended, once and for all |
| ThreadPools.QuietPoolIsEmpty | src/common/lib/ThreadPool.cpp:46-76 | No lost wake-up: in a pool that is not stopped, once all appends have returned normally, the workers get stuck only when every appended task has been popped |
| ThreadPools.WorkerForEveryTask | src/common/lib/ThreadPool.cpp:46-67 | Until the cap has forced a break, posted tasks, tasks about to be posted and free threads are exactly the waiting workers |
| ThreadPools.BreaksOnlyAtCap | src/common/lib/ThreadPool.cpp:49-51 | No break is forced below the cap |
| ThreadPools.ThreadCap | src/common/lib/ThreadPool.cpp:46-55 | With at most k appends at a time there are at most k - 1 threads above the cap, besides those that could not be detached and so are not counted |
| ThreadPools.CapAttained | src/common/lib/ThreadPool.cpp:46-55 | For every cap and every k some run attains that bound |
| ThreadPools.CapKeptIff | src/common/lib/ThreadPool.cpp:46-55 | For every cap: all runs with at most k appends at a time keep it if and only if k is at most 1 |
| ThreadPools.QueueWithinIff | src/common/lib/ThreadPool.cpp:35-44 | Over all runs with a limit max_task_num_, the queue stays within b tasks if and only if b is above the limit: it holds one task more than its limit says |
| SchedulerLoop.Scheduler.Run | src/master/scheduler/Scheduler.cpp:13-83 | The loop over the coflow objects, as far as run_stop lets it, gives the state and the return of the schedule |
| SchedulerLoop.Scheduler.Iterate | src/master/scheduler/Scheduler.cpp:22-81 | One iteration, with the early return inside the report loop |
| SchedulerLoop.Scheduler.RegisterCoflow | src/master/scheduler/Scheduler.cpp:93-112 | Registers the coflows that are due |
| SchedulerLoop.Scheduler.SendFlows | src/master/scheduler/Scheduler.cpp:37-45 | Rates and sends each flow of a coflow, in the order of the ids |
| SchedulerLoop.Scheduler.HandleReport | src/master/scheduler/Scheduler.cpp:56-76 | One report goes to the first coflow with its id |
| SchedulerRuns.ScheduledSettles | src/master/scheduler/Scheduler.cpp:22-81 | At the top of every iteration the coflows below registerIndex are RUNNINGED and the rest UNREGISTER, and what was sent is exactly the flows of the former, coflow by coflow |
| SchedulerRuns.SentIsAnnounced | src/master/scheduler/Scheduler.cpp:37-45 | At any time the messages are, in the order of coflows and flow ids, one for each flow that the coflows registered so far had at the start, and each carries coflow id, flow id, mapper, reducer and size of its flow, and the rate 10 |
| SchedulerFlows.FlowsInRun | src/master/scheduler/Scheduler.cpp:37-76 | At any time, with distinct ids: every flow keeps its ids, machines and size, its rate is 10 exactly if its coflow is registered, and it has ended exactly if it was reported, at the time that its latest report says |
| SchedulerRuns.EachFlowSentOnce | src/master/scheduler/Scheduler.cpp:34-48 | At any time a flow has been sent once if its coflow is registered, and otherwise not at all |
| Schedulers.RegistersDue | src/master/scheduler/Scheduler.cpp:97-111 | Registration goes on exactly to the first coflow that is not due |
| SchedulerRuns.ReturnsIffEnough | src/master/scheduler/Scheduler.cpp:50-78 | For any reports: the run returns if and only if the sum over the coflows of how far the reports of their flows go past the last one (N - flows + 1, or 0) reaches the number of coflows, and it returns with the first report for which it does; coflowFinishedNum is that sum for the reports handled |
| SchedulerRuns.ReturnsEarlyIff | src/master/scheduler/Scheduler.cpp:50-78 | The run returns while a flow has not ended if and only if the first reports that are enough leave some flow unnamed |
| SchedulerRuns.ReturnsWhenAllEnded | src/master/scheduler/Scheduler.cpp:50-78 | With distinct ids and reports that name each flow at most once, the run returns exactly when every coflow has flows and all flows have ended; a flow has ended exactly if it was reported |
| SchedulerRuns.RepeatedReportEndsEarly | src/master/scheduler/Scheduler.cpp:57-73 | A run with one coflow, both of whose flows have been sent, that returns on two reports of the first flow while the second is running |
| Coflows.Coflow.FlowEnd | src/master/datastructures/coflow.cpp:32-54 | Marks the flow, counts it and says whether the count has reached the number of flows; an unknown flow changes nothing |
| Coflows.AddedCountsIff | src/master/datastructures/coflow.cpp:8-12 | Adding a flow leaves the coflow unfinished, and keeps the counter equal to the number of ended flows if and only if it does not replace a flow that has ended |
| Coflows.FirstReportCounts | src/master/datastructures/coflow.cpp:32-54 | The first report of a flow keeps the counter equal to the number of ended flows, and completes the coflow exactly if no flow is left |
| MessageFraming.MessagesArrive | src/client/main.cpp:121-148 | However a stream of messages is cut and however much has arrived, the payloads delivered are the first ones sent, in order, and they and the kept prefix of the open message are all that arrived |
| MessageFraming.CutsDoNotMatterIff | src/client/main.cpp:125-148 | A stream of any bytes is delivered the same for all cuts if and only if every closing parenthesis after its first character closes an open message |
| MessageFraming.ReceivedWhole | src/client/main.cpp:125-148 | Chunked reception of such a stream delivers and keeps what unchunked reception does |
| MessageFraming.Receiver.Receive | src/client/main.cpp:121-148 | One chunk over the in-place buffer: overruns it exactly if it does not fit behind what is kept, and otherwise delivers the messages it completes and keeps the open one at the front |
| MessageFraming.Receiver.Shift | src/client/main.cpp:137-144 | The left shift over itself moves the open message to the front unchanged |
| MessageFraming.Receiver.GetRecvBuf | src/common/socket/socketManage.cpp:203-214 | Appends what was received behind what was kept; the first write behind the buffer, which comes exactly if there is no room for a final zero, is an outcome of its own |
| MessageFraming.Receiver.ReceiveAll | src/client/main.cpp:121-148 | A run of chunks over the buffer is the run of the definition, up to the first chunk that overruns it |
| MessageFraming.ChunksFit | src/client/main.cpp:121-148 | Payloads of at most P and chunks of at most C characters never fill more than P + 1 + C of the buffer |
| MessageFraming.AlwaysFitsIff | src/client/main.cpp:121-148 | The buffer is never overrun by payloads of at most P characters in chunks of at most C, however many and however cut, if and only if P + 1 + C is below its 4096 characters |
| MessageFraming.Receiver.ReceiveMessages | src/client/main.cpp:121-148 | With room for that, the tasks handed on are the first payloads of the stream, and all of them when it has come completely; they and the buffer are all that has come |

## Left out

- Sockets, epoll, files, consoles, configuration and `tc` commands: input and output only.
- schema.h, PrettyWriter, registries, iterators and type traits.
- IterativeParseNext, in-situ parsing, numbers as strings, NaN and Inf, and the encoding-validation flag.
- The value of a double that is parsed: it is known by its literal. The conversions of strtod.h are not
  part of the model. Of printing a double, the sign, zero, Prettify and WriteExponent are not.
- JsonNumbers.ParseNumber: the double that accumulates the digits of a long integer is exact instead of
  rounded, and exponents and counts of digits are unbounded.
- CachedPowers.CachedSuits: the index is computed over the real numbers instead of in double precision.
- Error offsets: errors are modelled as codes.
- RegexCorrectness.MatchPattern: patterns with a loop over a nullable operand are excluded, because
  AddState does not terminate on them; `PatternCycleFreeIff` says which these are. Pattern trees
  have anchors at their ends only; the parser records an anchor wherever it stands. Quantifier
  numbers are below 2^32 - 1, which is the mark for an open end, and state counts are unbounded.
- MpmcQueue.RunInv: atomic operations are sequentially consistent and positions do not wrap around;
  memory orders are not modelled.
- AsyncLog.ExitDeliversAll: the clock is only an expired flush interval, waiting for an empty queue is
  not modelled, a sink that throws counts as not having got the message, or as not flushed, and the error
  handler returns. Nothing is claimed about liveness.
- MpmcQueueCalls.MpmcBoundedQueue.Enqueue: the object runs alone; interleaved calls are the runs of
  MpmcQueue. How often the weak compare-exchange fails for no reason is a parameter.
- JsonParseStream.GenericDocument.ParseStream: the handlers get the events after the parse instead of
  during it; they never refuse one, so the result is the same.
- JsonAgreement.ParsersAgree: member and element counts and nesting depths are unbounded.
- JsonRoundTrip.ParsesPrinted: equality of values is identity, which implies `operator==`; the latter,
  which ignores the order of members, is not modelled.
- BigIntegers.BigInteger.ShiftLeft: excludes shifts for which the code reads or writes behind the limbs.
- BigIntegers.BigInteger.FromDecimals: excludes digits for which it does, or asserts that it does not.
- GrisuDigitGen.DigitGen: the scaling of `wp_w` is modelled with its wrap-around; `PrintDigits` shows that
  the boundaries of every double meet its preconditions.
- PointerText.TokensConsistent: indices of 2^32 - 1 and more are excluded, as `RightIndexIff` says.
- PointerEdit.Tree.Create: the cursor is the list of positions from the root instead of an address;
  strings and members are owned by value, so allocators play no part. Swap and the variants of Get and
  Set with defaults add nothing to it.
- MemoryPools.MemoryPoolAllocator.Realloc: sizes and addresses stay below 2^62, where the 64-bit sums do
  not wrap. Chunk headers are objects instead of bytes in front of the blocks. What the base allocator
  returns is a parameter, with the promise of aligned memory that is not in use.
- ThreadPools.RunKeepsLaws: a state machine instead of a class, as its threads run concurrently;
  accesses are sequentially consistent, and a task that throws is not modelled. `increase_a_thread`, which
  is declared to return a bool and has no return statement, is taken to return.
- SchedulerLoop.Scheduler.Run: clock readings and reports are inputs, and a send that returns false and
  is tried again is one send. What happens to a message after it is handed to a machine is not modelled.
  The vector holds each coflow object once.
- MessageFraming.Receiver.Receive: what the program does after it has written behind the buffer.
- MessageFraming.Receiver.ReceiveAll: the same.
- The copy of the framing loop in the master's machine.cpp.
