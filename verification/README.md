# psmoveinput and its copy of Google Test 1.6.0: a verified model

psmoveinput turns the motion controllers of a game console into a pointer and a keyboard. Its repository also holds
Google Test 1.6.0. This project models the parts of both with the most state, branching or arithmetic, and proves what
they promise.

| files | what they model |
|---|---|
| `RegexSyntax.dfy`, `RegexMatch.dfy`, `RegexFullMatch.dfy` | the simple regular expressions: validator, backtracking matcher, `RE` |
| `Ownership.dfy`, `LinkedPtr.dfy` | `linked_ptr`: who owns what, and the circular lists that keep track of it |
| `Utf8.dfy`, `Utf8Properties.dfy` | wide strings as UTF-8 |
| `TestFilter.dfy`, `Sharding.dfy`, `TestSelection.dfy` | glob filters, shards, and `FilterTests`, which applies them |
| `Shuffling.dfy`, `TestRegistry.dfy`, `TestOrder.dfy`, `TestCatalogue.dfy`, `TestRun.dfy` | the generator and the in-place shuffle, the registered test cases, the orders in which they run, and runs of them |
| `Xml.dfy`, `XmlCData.dfy` | text and CDATA sections in the XML report |
| `Printers.dfy`, `PrinterProperties.dfy`, `Trigraphs.dfy` | strings printed as C++ literals |
| `Controllers.dfy`, `HandlerModel.dfy`, `HandlerProperties.dfy`, `HandlerKeys.dfy`, `HandlerSignals.dfy`, `HandlerMovement.dfy`, `PSMoveHandler.dfy` | buttons, gestures, triggers and the pointer |
| `ListenerModel.dfy`, `ListenerProperties.dfy`, `ListenerProgress.dfy`, `PSMoveListener.dfy` | the main loop and its controller threads |
| `Primes.dfy`, `Queue.dfy` | the prime tables and the linked queue among Google Test's samples |
| `CStrings.dfy`, `Hexadecimal.dfy`, `Sequences.dfy`, `Arithmetic.dfy` | C strings and nullable pointers, digits, and facts about sequences and numbers |

Code that changes state step by step is modelled by methods and classes, and proved against functions; the properties
are then proved about the functions, for all inputs or all runs. Machines with several entry points (handler, listener,
`linked_ptr`) are state machines: a run is any sequence of calls or steps.

Assumptions:

- Clocks, connections and gyroscope values are parameters: the handler's clock is a function from the
  number of readings to a time, the listener's connections and the steps of other threads are given in advance, and
  every theorem holds for all of them. Signals and deletions go to logs.
- In the listener, each step of the main loop reads or writes one shared field, with two exceptions. `start` is one
  step: in the original the new thread can run before `thread_` is assigned. Reading `running()` and `getPSMoveId()`
  together is one step, since only the main loop changes the id. The end of a controller thread (clearing `thread_`,
  disconnecting, setting `threadStop_`) is one step too, and `join` waits until the slot is empty.
- The coefficients of the handler are real numbers, button masks are sets of bit positions, and C's arithmetic on `int`
  does not overflow; the generator's 32-bit wrap-around is modelled.
- Calls on linked_ptrs do not overlap; the original holds a mutex around the changes of the links. Calls on one handler
  do not overlap either, which the original does not ensure: it locks one bit of the scan in `onButtons` at a time, and
  two controller threads deliver signals.

Eight results say that the code does not do what its documentation, or its caller, would expect, with the exact
condition under which it does: `FullMatchIsFull` (a regex that ends in an escaped dollar sign), `FilterSeesNameIff` (full
test names of 4096 characters or more), `InvalidTextIff` (numbers between U+10FFFF and 21 bits), `ReadsBackIff` and
`ReadsBackWithTrigraphsIff` (a NUL before an octal digit, and trigraphs), `KeyDisagreesIff` (a key held at a reset), `ReadingCountsIff`
(a reading at a whole second) and `OverloadsAgreeAtFixedPoints` (the constant `GetTestCase` ignores the shuffle).

## Model

| member | source | states |
|---|---|---|
| `RegexSyntax.ValidateRegex` | gtest-1.6.0/src/gtest-port.cc:232-286 | Accepts a string exactly if some well-formed syntax tree of the grammar prints it; a NULL regex and every other string is rejected. |
| `RegexSyntax.ScanDecidesGrammar` | gtest-1.6.0/src/gtest-port.cc:240-283 | The left-to-right scan with its one-token memory accepts exactly the printed syntax trees, although the grammar is not defined by a scan. |
| `RegexSyntax.ParsePrint` | gtest-1.6.0/src/gtest-port.cc:295-348 | Reading a printed well-formed pattern gives the pattern back, so the matcher's view of a regex is unambiguous. |
| `RegexMatch.MatchRepetitionAndRegexAtHead` | gtest-1.6.0/src/gtest-port.cc:295-317 | True exactly if an allowed number of characters, each matching the atom, is followed by a match of the rest; ends although it calls back the matcher, since the rest gets shorter. |
| `RegexMatch.MatchRegexAtHead` | gtest-1.6.0/src/gtest-port.cc:322-348 | For every valid regex without its leading '^' and every string: true exactly if a prefix of the string is in the regex's language, the whole string if the regex ends in '$'. |
| `RegexMatch.HeadMatchSplit` | gtest-1.6.0/src/gtest-port.cc:295-317 | A token and a rest match at the head exactly if the string can be cut into a word of the token and a head match of the rest: what backtracking searches. |
| `RegexMatch.AtomClasses` | gtest-1.6.0/src/gtest-port.cc:178-222 | `\d`, `\s` and `\w` match exactly the digits, the white space and the letters, digits and '_'; each capital matches the complement; `\s` and `\w` have nothing in common. |
| `RegexMatch.AtomLiterals` | gtest-1.6.0/src/gtest-port.cc:178-222 | Every other atom but '.' matches one character only; '.' matches all but the end of the line; the punctuation marks are the visible ASCII characters outside `\w`, and '_'. |
| `RegexMatch.MatchRegexAnywhere` | gtest-1.6.0/src/gtest-port.cc:358-371 | True exactly if some substring is in the language, at the start if the regex begins with '^' and up to the end if it ends in '$'; NULL matches nothing. |
| `RegexFullMatch.RE.Init` | gtest-1.6.0/src/gtest-port.cc:392-423 | Stores the pattern and its validity; a valid pattern is compiled so that `FullMatch` and `PartialMatch` decide what their rows say. |
| `RegexFullMatch.RE.PartialMatch` | gtest-1.6.0/src/gtest-port.cc:387-389 | True exactly if the regex is valid and some substring matches it. |
| `RegexFullMatch.RE.FullMatch` | gtest-1.6.0/src/gtest-port.cc:381-383 | True exactly if the regex is valid and the string matches in full; for a regex that ends in the escape `\$`, what the code decides instead is spelled out as `FullMatchDecides`. |
| `RegexFullMatch.FullMatchIsFull` | gtest-1.6.0/src/gtest-port.cc:407-421 | "The whole string is in the language" is what `FullMatch` decides for all strings if and only if the last token of the regex is not the escape `\$`. |
| `RegexFullMatch.EscapedDollarCounterexample` | gtest-1.6.0/src/gtest-port.cc:418-419 | The regex `\$` fully matches "$x", which is not in its language. |
| `LinkedPtr.LinkedPtr.FindLinkTo` | gtest-1.6.0/include/gtest/internal/gtest-linked_ptr.h:112-126 | The search along a circle ends, and finds the one member that links to the given one (the loops of `join` and `depart`). |
| `LinkedPtr.LinkedPtr.Join` | gtest-1.6.0/include/gtest/internal/gtest-linked_ptr.h:109-116 | The circle has the new member directly before the one that was joined, and is a circle again. |
| `LinkedPtr.LinkedPtr.LeaveCircle` | gtest-1.6.0/include/gtest/internal/gtest-linked_ptr.h:121-129 | True exactly if nobody else was on the circle; the others form a circle without the leaving member. |
| `LinkedPtr.LinkedPtr.Unlink` | gtest-1.6.0/include/gtest/internal/gtest-linked_ptr.h:121-129 | Leaving touches no other circle, and those that stay keep their order: the circle without the leaving member is what is left. |
| `LinkedPtr.LinkedPtr.Depart` | gtest-1.6.0/include/gtest/internal/gtest-linked_ptr.h:194-196 | The object is deleted exactly if no other linked_ptr in existence holds it (and it is not NULL); all circles stay disjoint rings, one for each object. |
| `LinkedPtr.LinkedPtr.Capture` | gtest-1.6.0/include/gtest/internal/gtest-linked_ptr.h:198-201 | The linked_ptr alone holds the raw pointer, which counts as captured. |
| `LinkedPtr.LinkedPtr.Copy` | gtest-1.6.0/include/gtest/internal/gtest-linked_ptr.h:203-209 | Afterwards `value` is the source's value, all other linked_ptrs keep theirs, and the circles are again those of the holders; a copy of NULL stands alone. |
| `LinkedPtr.LinkedPtr.constructor` | gtest-1.6.0/include/gtest/internal/gtest-linked_ptr.h:142-142 | A new linked_ptr holds the raw pointer, and the others hold what they held: the operation `New` of the ownership record. |
| `LinkedPtr.LinkedPtr.CopyOf` | gtest-1.6.0/include/gtest/internal/gtest-linked_ptr.h:147-150 | A copy-constructed linked_ptr has its source's value, and the others, the source among them, keep theirs: the operation `NewCopy`. |
| `LinkedPtr.LinkedPtr.Assign` | gtest-1.6.0/include/gtest/internal/gtest-linked_ptr.h:159-165 | Afterwards the target has the source's value and the others keep theirs; assigning to itself changes nothing: the operation `Assign`. |
| `LinkedPtr.LinkedPtr.Reset` | gtest-1.6.0/include/gtest/internal/gtest-linked_ptr.h:168-171 | Afterwards the linked_ptr holds the raw pointer and the others keep their values: the operation `Reset`. |
| `LinkedPtr.LinkedPtr.Destroy` | gtest-1.6.0/include/gtest/internal/gtest-linked_ptr.h:143-143 | The linked_ptr is gone and the others keep their values: the operation `Destroy`. |
| `LinkedPtr.CirclesAreHolders` | gtest-1.6.0/include/gtest/internal/gtest-linked_ptr.h:109-129 | After every run, each circle is a ring of exactly the linked_ptrs that hold one object (or of one that holds NULL), and two circles are the same or disjoint. |
| `LinkedPtr.HeldIsValue` | gtest-1.6.0/include/gtest/internal/gtest-linked_ptr.h:203-209 | What the ownership record says is held is the `value` field, and linked_ptrs with the same value other than NULL are on one circle, so a copy is on its source's. |
| `LinkedPtr.AllDeleted` | gtest-1.6.0/include/gtest/internal/gtest-linked_ptr.h:194-196 | When no linked_ptr is left, the deleted objects are the captured ones, each once. |
| `Ownership.DeletedExactlyOnce` | gtest-1.6.0/include/gtest/internal/gtest-linked_ptr.h:142-209 | In every run in which each raw pointer is captured once, nothing is deleted twice, and an object has been deleted exactly if it was captured and nobody holds it. |
| `Ownership.DeletedByLastHolder` | gtest-1.6.0/include/gtest/internal/gtest-linked_ptr.h:194-196 | An operation deletes an object if and only if it takes away its last holder. |
| `Ownership.NothingLeaks` | gtest-1.6.0/include/gtest/internal/gtest-linked_ptr.h:142-209 | In every run that ends without linked_ptrs, deleted and captured objects agree as multisets. |
| `Ownership.CopyHoldsTheSame` | gtest-1.6.0/include/gtest/internal/gtest-linked_ptr.h:203-209 | A copy, constructed or assigned, holds what its source held; the source and all others hold what they held, and nothing new is captured. |
| `Ownership.UntouchedHolds` | gtest-1.6.0/include/gtest/internal/gtest-linked_ptr.h:142-209 | In every run, a linked_ptr that no later operation touches goes on holding its object, and the object is not deleted. |
| `Ownership.CopyKeepsAlive` | gtest-1.6.0/include/gtest/internal/gtest-linked_ptr.h:142-209 | In every run, after a copy is made, destroying or reassigning its source, or any other linked_ptr, deletes the object at no time while the copy itself is untouched. |
| `Utf8.CodePointToUtf8` | gtest-1.6.0/src/gtest.cc:1435-1466 | The buffer holds the NUL-terminated bytes of the code point, or the "(Invalid Unicode 0x%X)" text, within 32 bytes; U+0 gives the empty string. |
| `Utf8.WideStringToUtf8` | gtest-1.6.0/src/gtest.cc:1504-1526 | For both sizes of wchar_t, and any `num_chars`: the bytes of the code points up to the NUL or the limit, pairs of surrogates combined. |
| `Utf8Properties.Utf16ToUtf8` | gtest-1.6.0/src/gtest.cc:1504-1526 | With 2-byte wchar_t, UTF-16 in gives UTF-8 out: a strict decoder reads the original scalar values back. |
| `Utf8Properties.CodePointsEncode` | gtest-1.6.0/src/gtest.cc:1475-1520 | Every 16-bit string, well-formed or not, is the UTF-16 of the code points read from it (lone surrogates standing for themselves), and no pair is left uncombined. |
| `Utf8Properties.CodePointsDecode` | gtest-1.6.0/src/gtest.cc:1475-1520 | Reading the UTF-16 of code points without adjacent lone surrogates gives them back. |
| `Utf8Properties.ShownDecodes` | gtest-1.6.0/src/gtest.cc:1435-1466 | The output is well-formed UTF-8 if and only if it shows no surrogate and no number from 0x110000 to 0x1FFFFF; then it decodes to the code points, with the text in place of larger numbers. |
| `Utf8Properties.WellFormedIff` | gtest-1.6.0/src/gtest.cc:1504-1526 | With 2-byte wchar_t the output is well-formed UTF-8 if and only if the input is well-formed UTF-16. |
| `Utf8Properties.Utf32ToUtf8Iff` | gtest-1.6.0/src/gtest.cc:1504-1526 | With 4-byte wchar_t, decoding the output gives the input back if and only if the input consists of scalar values; the output is well-formed exactly if no number is a surrogate or from 0x110000 to 0x1FFFFF. |
| `Utf8Properties.InvalidTextIff` | gtest-1.6.0/src/gtest.cc:1432-1466 | The "Invalid Unicode" text appears if and only if the number is above 0x1FFFFF; the comment promises it above 0x10FFFF. |
| `Utf8Properties.BeyondUnicode` | gtest-1.6.0/src/gtest.cc:1432-1434 | 0x110000 is no code point, yet is not shown as invalid. |
| `TestFilter.PatternMatchesGlob` | gtest-1.6.0/src/gtest.cc:433-448 | The recursive matcher agrees with the meaning of a glob: the string can be cut into one piece for each pattern character, one character for '?', any piece for '*'; the pattern ends at ':' or NUL. |
| `TestFilter.SplitJoins` | gtest-1.6.0/src/gtest.cc:450-471 | A filter is its patterns joined by ':', none of which contains ':'. |
| `TestFilter.MatchesFilter` | gtest-1.6.0/src/gtest.cc:450-471 | True exactly if one of the ':'-separated patterns matches the name. |
| `TestFilter.FilterMatchesTest` | gtest-1.6.0/src/gtest.cc:474-502 | True exactly if the formatted full name matches a pattern before the first '-' (any name, if there is a '-' and nothing before it) and none after it; a name of 4096 or more characters is formatted as the error text of `String::Format`. |
| `TestFilter.FilterSeesNameIff` | gtest-1.6.0/src/gtest.cc:476-478 | All filter flags mean for the formatted name what they mean for the name itself if and only if the name has fewer than 4096 characters. |
| `TestFilter.LongNamesEscapeFilters` | gtest-1.6.0/src/gtest.cc:1700-1731 | Of the longer names that start with an A, the flag "A*" selects none and "-A*" excludes none. |
| `TestFilter.PlainGlob` | gtest-1.6.0/src/gtest.cc:433-448 | A glob without '*' and '?' matches only itself. |
| `Xml.EscapeXml` | gtest-1.6.0/src/gtest.cc:3124-3164 | Each character becomes the text that the rows below decode; NULL gives the empty text. |
| `Xml.EscapedDecodes` | gtest-1.6.0/src/gtest.cc:3124-3164 | Decoding escaped text, as an attribute value or as character data, gives the text without the characters that `IsValidXmlCharacter` rejects. |
| `Xml.EscapedDecodesToItselfIff` | gtest-1.6.0/src/gtest.cc:3019-3026 | Nothing is lost if and only if all characters are accepted. |
| `Xml.CharIsPlainIff` | gtest-1.6.0/src/gtest.cc:3124-3164 | A character is copied exactly if it is accepted and means nothing else in that place (markup; in attributes also quotes and line or tab white space), dropped exactly if it is not accepted, and becomes a reference to itself otherwise. |
| `Xml.EscapesNothingIff` | gtest-1.6.0/src/gtest.cc:3124-3164 | Text is left as it is if and only if all its characters are of the first kind. |
| `XmlCData.OutputXmlCDataSection` | gtest-1.6.0/src/gtest.cc:3203-3220 | Writes one or more CDATA sections, split at each first "]]>", appended to the stream. |
| `XmlCData.CDataReadsBack` | gtest-1.6.0/src/gtest.cc:3203-3220 | Reading the sections and the text between them gives the data back, whatever it contains. |
| `XmlCData.SectionStarts` | gtest-1.6.0/src/gtest.cc:3203-3220 | Brackets in the data never join up with the text written after them to a "]]>" that ends the section too early. |
| `XmlCData.OneSectionIff` | gtest-1.6.0/src/gtest.cc:3203-3220 | The data is one section, unchanged, if and only if "]]>" is not in it. |
| `Printers.PrintAsCharLiteralTo` | gtest-1.6.0/src/gtest-printers.cc:149-192 | Prints one of the three formats, and says which. |
| `Printers.PrintCharsAsStringTo` | gtest-1.6.0/src/gtest-printers.cc:261-275 | Prints a narrow string (or a wide one, lines 285-299) character by character, with a break before a hexadecimal digit that follows a hexadecimal escape. |
| `PrinterProperties.QuotedCharReads` | gtest-1.6.0/src/gtest-printers.cc:149-192 | In single quotes, the text of every character reads back as that character. |
| `PrinterProperties.ReadsBackIff` | gtest-1.6.0/src/gtest-printers.cc:261-275 | Without trigraph replacement, the printed string always reads back as string literals; it reads back as itself if and only if no NUL stands directly before an octal digit. |
| `Trigraphs.ReadsBackWithTrigraphsIff` | gtest-1.6.0/src/gtest-printers.cc:261-275 | Where trigraphs are replaced before literals are read, the printed string reads back as itself if and only if no NUL stands directly before an octal digit and it has no trigraph, for narrow and wide strings. |
| `Trigraphs.StaysBehind` | gtest-1.6.0/src/gtest-printers.cc:261-275 | Once reading has passed over characters without giving them back, it never gives them back later: why no other flaw can make up for a trigraph. |
| `PrinterProperties.AbsorbsIff` | gtest-1.6.0/src/gtest-printers.cc:152-154 | What is read back differs from the string if and only if a NUL takes in octal digits that follow it. |
| `PrinterProperties.NulBeforeOctalReadsBackWrong` | gtest-1.6.0/src/gtest-printers.cc:152-154 | The two characters NUL and '1' print as "\01", which is the one character 1. |
| `PrinterProperties.ReadBreak` | gtest-1.6.0/src/gtest-printers.cc:266-271 | The break `" "` adds nothing to what is read. |
| `PrinterProperties.FormatsIff` | gtest-1.6.0/src/gtest-printers.cc:149-208 | A character is printed as is exactly if it is printable and neither '"' nor a backslash, by a letter exactly if it is one of these, NUL, or from 7 to 13, and by its number otherwise. |
| `PrinterProperties.PrintedByPosition` | gtest-1.6.0/src/gtest-printers.cc:261-275 | The loop with its memory prints what each place asks for on its own: a break exactly before a hexadecimal digit that follows a character printed by its number. |
| `Sharding.ShardsSumToRunnable` | gtest-1.6.0/src/gtest.cc:4366-4368 | The shards select as many tests together as there are runnable ones. |
| `Sharding.ShardShare` | gtest-1.6.0/src/gtest.cc:4414-4419 | How many tests a shard selects, in closed form. |
| `Sharding.SharesAreBalanced` | gtest-1.6.0/src/gtest.cc:4414-4419 | Shards differ by at most one test, earlier ones having no fewer. |
| `TestSelection.FilterTests` | gtest-1.6.0/src/gtest.cc:4377-4428 | Every test carries its class and whether it runs here, every case runs if and only if one of its tests does, and the number returned is that of the selected tests; the test numbers count runnable tests across cases. |
| `TestSelection.AnyRunsMeaning` | gtest-1.6.0/src/gtest.cc:4390-4425 | A case's `should_run` is the disjunction over its tests. |
| `TestSelection.EachTestOnOneShard` | gtest-1.6.0/src/gtest.cc:4377-4428 | When all shards filter the same tests, each test that the flags let run is run by exactly one of them, and no other test by any. |
| `TestSelection.ShardsAddUp` | gtest-1.6.0/src/gtest.cc:4377-4428 | The numbers returned on all shards add up to the number of runnable tests and differ by at most one. |
| `Shuffling.Random.Generate` | gtest-1.6.0/src/gtest.cc:284-298 | One step of the generator with 32-bit wrap-around, and a number below the range. |
| `Shuffling.ShuffleRange` | gtest-1.6.0/src/gtest-internal-inl.h:302-319 | The vector is shuffled in place by the numbers that the generator gives. |
| `Shuffling.ShufflePermutes` | gtest-1.6.0/src/gtest-internal-inl.h:302-319 | Every sequence of draws permutes the range and leaves the rest alone. |
| `Shuffling.ShuffleReachesAll` | gtest-1.6.0/src/gtest-internal-inl.h:302-319 | Every permutation of the range comes from some sequence of draws. |
| `Shuffling.ShuffleIsInjective` | gtest-1.6.0/src/gtest-internal-inl.h:302-319 | Different sequences of draws give different orders of distinct elements, so each order comes from one. |
| `Shuffling.ShuffledByDraws` | gtest-1.6.0/src/gtest-internal-inl.h:302-319 | The result of `ShuffleRange` is the shuffle by the generator's draws, hence a rearrangement of the range only. |
| `Shuffling.LastElement` | gtest-1.6.0/src/gtest-internal-inl.h:309-318 | The element that the first draw chooses goes to the end of the range and stays there. |
| `TestRegistry.UnitTestImpl.GetTestCase` | gtest-1.6.0/src/gtest.cc:4096-4129 | Returns the case of the given name; a new one goes after the last death test case if its name matches the death test filter, else to the end; the death test cases stay the prefix up to `last_death_test_case_`. |
| `TestRegistry.UnitTestImpl.AddTestInfo` | gtest-1.6.0/src/gtest-internal-inl.h:633-653 | Registers a test with the case of its name: in the registry as a list of cases and tests, that case, found or newly inserted, has one more test and nothing else changes. |
| `TestRegistry.UnitTestImpl.RegisteringIsValid` | gtest-1.6.0/src/gtest.cc:4211-4219 | What registration leaves behind is what shuffling and running need. |
| `TestRegistry.InsertionKeepsOrder` | gtest-1.6.0/src/gtest.cc:4113-4126 | Inserting at that place keeps death test cases first, names distinct and index vectors separate. |
| `TestRegistry.TestCase.AddTestInfo` | gtest-1.6.0/src/gtest.cc:2424-2427 | The test and its own index are appended, so the indices stay a permutation. |
| `TestRegistry.UnitTestImpl.ShuffleTests` | gtest-1.6.0/src/gtest.cc:4484-4496 | Shuffles the death test cases, the other cases and each case's tests, in this order from one generator, and keeps all index vectors permutations with death tests first. |
| `TestRegistry.BlocksStayBlocks` | gtest-1.6.0/src/gtest.cc:4485-4490 | Shuffling the two blocks of indices keeps each of them a permutation of its own indices. |
| `TestRegistry.UnitTestImpl.RunOrder` | gtest-1.6.0/src/gtest-internal-inl.h:571-575 | Going through `GetMutableTestCase(0)`, `(1)`, ... visits every case once, no death test case after another case; before any shuffle, in the order of registration. |
| `TestRegistry.UnitTestImpl.UnshuffleTests` | gtest-1.6.0/src/gtest.cc:4499-4506 | All index vectors are the identity again. |
| `TestRegistry.ShuffleParts` | gtest-1.6.0/src/gtest.cc:4485-4490 | The shuffle does move cases: with the generator's state 1, two of them change places. |
| `TestRun.RegisterAll` | gtest-1.6.0/src/gtest-internal-inl.h:633-653 | Starting from an empty registry, the cases are `Registered`, of which the next two rows speak. |
| `TestOrder.RegisteredInOrder` | gtest-1.6.0/src/gtest.cc:4113-4126 | Registering keeps each case's tests in the order of their registration, and puts death test cases before the others, both in the order in which their first tests were registered. |
| `TestCatalogue.RegisteredCatalogue` | gtest-1.6.0/src/gtest-internal-inl.h:633-653 | Every registered test is in one case, once, under its own name, and no other test is. |
| `TestRun.RunCase` | gtest-1.6.0/src/gtest.cc:2430-2455 | Runs, of the case's tests in the order of its indices, exactly those that are to run. |
| `TestRun.RunInTurn` | gtest-1.6.0/src/gtest.cc:4235-4238 | Going through the cases in a given order runs, case by case in the order of its indices, exactly the tests that are to run. |
| `TestRun.RunIteration` | gtest-1.6.0/src/gtest.cc:4211-4264 | Reseeding, shuffling, running and unshuffling: the selected tests run in the order of registration or, when shuffling, in that which the seed gives, and the registry is back in its original order. |
| `TestRun.RunAllTests` | gtest-1.6.0/src/gtest.cc:4145-4275 | The tests that `FilterTests` selects for this shard run `repeat` times, iteration i in the order of registration or in that which the i-th seed gives (`Runs`, of which the next rows speak). |
| `TestRun.RunTests` | gtest-1.6.0/src/gtest.cc:4145-4275 | The same for a new registry with any list of distinct tests; in each iteration every selected test runs once and no other, those of death test cases first; without shards a test is selected if and only if it matches the filter and neither its name nor its case's is disabled (or disabled tests run too). |
| `TestOrder.RunsInOrder` | gtest-1.6.0/src/gtest.cc:4214-4238 | Without shuffling, each iteration runs the selected tests case by case in the order of registration; with shuffling, in the order that the generator, started at the iteration's seed, makes of it: death test cases, other cases, then the tests of each case. |
| `TestOrder.SeedDecidesOrder` | gtest-1.6.0/src/gtest.cc:4214-4221 | Exactly one order follows from a seed, so a shuffled run can be repeated. |
| `TestOrder.SeedsInTurn` | gtest-1.6.0/src/gtest-internal-inl.h:137-146 | The seeds of the iterations go through 1 to 99999 in turn, and start again. |
| `TestCatalogue.RunsEachOnce` | gtest-1.6.0/src/gtest.cc:4211-4264 | In every iteration, shuffled or not, each selected test runs once, no other test runs, and those of death test cases come first. |
| `TestCatalogue.WithTestAdds` | gtest-1.6.0/src/gtest-internal-inl.h:648-652 | One registration adds one test to the registry. |
| `TestSelection.NoneSelected` | gtest-1.6.0/src/gtest.cc:4180-4182 | If `FilterTests` returns 0, no test is selected: why an iteration may skip the tests. |
| `TestRegistry.UnitTestImpl.OverloadsAgreeAtFixedPoints` | gtest-1.6.0/src/gtest-internal-inl.h:562-575 | The constant `GetTestCase(i)`, which uses `i` where the other overload uses the permuted index, returns the same case if and only if the shuffle left place `i` alone. |
| `PSMoveHandler.PSMoveHandler.constructor` | psmove_handler.cpp:30-62 | A new handler is in the initial state, with both trigger uses found out from the key maps. |
| `PSMoveHandler.PSMoveHandler.CheckTriggers` | psmove_handler.cpp:309-330 | A trigger is used exactly if its key map has an entry for it. |
| `PSMoveHandler.PSMoveHandler.HandleSpecialKeys` | psmove_handler.cpp:268-307 | The new state and the result are those of the model, which obeys the laws of `HandlerSignals`. |
| `PSMoveHandler.PSMoveHandler.ReportKey` | psmove_handler.cpp:239-266 | All entries of the key map for the button, in order. |
| `PSMoveHandler.PSMoveHandler.OnButtons` | psmove_handler.cpp:192-225 | The new state is that of the model; ends although it calls `OnGesture`, which calls it back. |
| `PSMoveHandler.PSMoveHandler.OnGesture` | psmove_handler.cpp:122-190 | The new state is that of the model, for which `GestureDirections` and `GestureIgnored` say what is held. |
| `PSMoveHandler.PSMoveHandler.OnGyroscope` | psmove_handler.cpp:70-120 | The new state is that of the model, for which `MoveIff` says what is signalled. |
| `PSMoveHandler.PSMoveHandler.Reset` | psmove_handler.cpp:227-237 | Clears buttons, triggers and times without reporting a release. |
| `HandlerModel.ReleasesBlockGestures` | psmove_handler.cpp:219-224 | A report that only releases buttons of the second controller and thereby asks for gesture keys to be released leaves the trigger up, so the gesture it sets off is ignored: why the mutual recursion ends for all key maps. |
| `HandlerProperties.RunsAlternate` | psmove_handler.cpp:192-237 | In every run, the `reportKey` calls since the last reset for each controller and each bit up to BTN_GESTURE_RIGHT alternate press and release, starting with a press, and the bit is set exactly if the last call was a press. |
| `HandlerProperties.RunsKeepGesturesExclusive` | psmove_handler.cpp:161-186 | In every run in which the second controller reports no gesture bits, LEFT and RIGHT are never held together, nor are UP and DOWN. |
| `HandlerProperties.ControllerReport` | psmove_handler.cpp:192-225 | A report sets that controller's buttons to what it says, with one call for each bit that changes and none for the other controller; a report of the second controller thus releases each held gesture bit once. |
| `HandlerProperties.RunsHoldGesturesUnderTrigger` | psmove_handler.cpp:282-294 | In every such run, with no gesture button mapped to the gesture trigger, gesture buttons are held only while the trigger, if it is used, is. |
| `HandlerKeys.KeysFollowReports` | psmove_handler.cpp:254-265 | Between two resets of every run, an ordinary key that one entry of the key maps assigns to one button is signalled exactly as that button is reported. |
| `HandlerKeys.KeyIsDownWithButton` | psmove_handler.cpp:192-266 | Such a key is sent press, release, press, ... and is down exactly while its button is held. |
| `HandlerKeys.KeyDisagreesIff` | psmove_handler.cpp:227-237 | Over all runs, resets included, the last signal of such a key disagrees with its button if and only if the key was down at the last reset and the button has not been reported since; then the key is down. |
| `HandlerKeys.HeldKeyStaysDown` | psmove_handler.cpp:227-237 | A key whose button is held at a reset stays down: the button counts as released, but no release is sent. |
| `HandlerKeys.EntriesKeys` | psmove_handler.cpp:254-265 | A button sends an ordinary key as often as the key map assigns it to the button. |
| `HandlerSignals.EntrySignals` | psmove_handler.cpp:239-307 | What an entry for the reported button sends: a disconnection with its controller's id, a wheel step up (1) or down (-1) at a press, nothing for a trigger of its own controller, and the key otherwise. |
| `HandlerSignals.SignalsFollowReports` | psmove_handler.cpp:268-307 | Between two resets of every run, wheel steps up and down are as many as the presses of the one button with that key, and disconnections of a controller as many as the reports of its one button for that. |
| `HandlerSignals.TriggersFollowButtons` | psmove_handler.cpp:276-294 | In every run, resets included, a trigger that one button of its controller has is held exactly while that button is. |
| `HandlerSignals.ReportsAscend` | psmove_handler.cpp:192-217 | A change of buttons reports the changed bits one by one, in ascending order. |
| `HandlerSignals.ChangesAscend` | psmove_handler.cpp:192-217 | These are all changed bits, each once, as presses or releases. |
| `HandlerProperties.TimeDeltaModuloOneSecond` | psmove_handler.cpp:90-94 | The time difference is in 0..999 and within a millisecond of the elapsed time modulo one second. |
| `HandlerProperties.DistanceIsOdd` | psmove_handler.cpp:98-109 | The distance is odd in the gyroscope value, and is 0 or at least the threshold in size. |
| `HandlerMovement.MoveIff` | psmove_handler.cpp:70-120 | A movement is signalled if and only if both fields of the last time are not 0, the move trigger is held or unused, and `gx * delta * cx` or `gy * delta * cy` is at least the larger of 1 and the threshold in size; each distance is the whole part of its own axis' product, or 0 below that; nothing else changes but the time. |
| `HandlerMovement.MovesBySign` | psmove_handler.cpp:98-109 | A distance other than 0 has the sign of its gyroscope value times the coefficient. |
| `HandlerMovement.TimeDeltaExactly` | psmove_handler.cpp:90-94 | The time difference in terms of the nanoseconds of both readings, rounded towards zero and with a second added if negative. |
| `HandlerMovement.RunsKeepGyroTime` | psmove_handler.cpp:118-119 | In every run, the time that a movement is measured from is that of the last gyroscope value since the last reset, if there is one. |
| `HandlerMovement.ReadingCountsIff` | psmove_handler.cpp:81-82 | In every run, the last reading counts as an earlier one if and only if there was one since the last reset and neither field of its time is 0: the comment promises that only the first one does not. |
| `HandlerMovement.WholeSecondIsIgnored` | psmove_handler.cpp:81-82 | When the first reading comes at a whole second, the second one moves nothing, however large it is. |
| `HandlerMovement.GestureDirections` | psmove_handler.cpp:132-184 | After a gesture that counts (no gesture button being mapped to its trigger), RIGHT is held exactly if `gx * delta * cx` is at least the larger of 1 and the threshold, LEFT exactly if it is at most the negative of that, UP and DOWN likewise for gy and cy; all other buttons of both controllers are as before. |
| `HandlerMovement.GestureIgnored` | psmove_handler.cpp:132-189 | The first gesture, and one whose trigger is used but not held, changes nothing but the time. |
| `HandlerMovement.ResetForgets` | psmove_handler.cpp:227-237 | After a reset the first reading of either kind only sets the time; no button or trigger is held and nothing is signalled. |
| `PSMoveListener.ControllerThread.Start` | psmove_listener.cpp:287-321 | Starts a thread only if none is running, and keeps the buttons of the last one. |
| `PSMoveListener.PSMoveListener.Run` | psmove_listener.cpp:70-122 | Whatever the other threads do in between, the main loop takes only steps of the interleaving model; it returns with no thread running and every accepted handle closed. |
| `PSMoveListener.PSMoveListener.Connect` | psmove_listener.cpp:202-239 | Looks for an id that no running thread serves; returns an accepted handle with that id, or none. |
| `PSMoveListener.PSMoveListener.HandleNewDevice` | psmove_listener.cpp:154-166 | Some slot takes the handle over, even if threads end meanwhile. |
| `PSMoveListener.PSMoveListener.IsFullCapacity` | psmove_listener.cpp:241-255 | Tells the main loop to look for a controller only if it saw a free slot. |
| `PSMoveListener.PSMoveListener.ExitThread` | psmove_listener.cpp:415-430 | A controller thread's end is the step `Exit` of the model. |
| `ListenerProperties.DistinctControllers` | psmove_listener.cpp:202-239 | In every interleaving, running threads have different psmoveapi ids among 0 and 1; slot 0 is the first controller and slot 1 the second. |
| `ListenerProperties.EveryHandleAdopted` | psmove_listener.cpp:154-166 | In every interleaving, the accepted handles are taken over by one slot each, in order; only the last one may still be on its way, and then a slot is free. |
| `ListenerProperties.HandlesHeldOrClosed` | psmove_listener.cpp:415-430 | In every interleaving, a handle that was taken over is held by one running thread or has been closed once; after `run` has returned, all are closed. |
| `ListenerProperties.CompleteOnlyWhenIdle` | psmove_listener.cpp:80-104 | In every interleaving, DisconnectComplete is raised, and `run` returns, only when no controller thread is running. |
| `ListenerProperties.StopIsFinal` | psmove_listener.cpp:88-94 | After `run` has returned, no further steps start a thread, close a handle or raise a signal. |
| `ListenerProperties.SessionsEnd` | psmove_listener.cpp:168-177 | In every interleaving, a thread that has ended leaves the request to stop the others standing until DisconnectComplete; between two of these signals at most three controllers are taken over, two if none has been lost. |
| `ListenerProperties.OnlyChangesAreSignalled` | psmove_listener.cpp:390-394 | In every interleaving, a controller never signals the same buttons twice in a row, even across reconnections. |
| `ListenerProperties.PollIsSignalled` | psmove_listener.cpp:390-394 | In every interleaving, buttons read from a running controller are signalled exactly if its last signalled ones differ; afterwards its last signalled buttons are those read, and the other controller's are as before. |
| `ListenerProperties.OnlyPollsSignalButtons` | psmove_listener.cpp:390-394 | No other step signals buttons. |
| `ListenerProperties.StopIsRequested` | psmove_listener.cpp:124-127 | In every interleaving, the main loop sees a request to stop exactly after `stop` was called. |
| `ListenerProperties.DisconnectIsRequested` | psmove_listener.cpp:168-177 | The disconnect key, and the end of a controller thread, ask all threads to stop. |
| `ListenerProgress.StepsAreActions` | psmove_listener.cpp:70-122 | The undisturbed steps of the main loop, of which the next rows speak, are runs of the interleaving model. |
| `ListenerProgress.LooksForControllers` | psmove_listener.cpp:105-117 | Left alone, the main loop hands the least id that no thread serves and that can be connected to over to the first idle slot, also while the other slot runs; with no idle slot or no such id it changes nothing. |
| `ListenerProgress.CandidateIsLeast` | psmove_listener.cpp:202-239 | The id looked for is the least one that no thread serves and that can be connected to. |
| `ListenerProgress.StopIsObeyed` | psmove_listener.cpp:80-94 | After `stop` was called and all threads have ended, the main loop returns. |
| `ListenerProgress.DisconnectIsObeyed` | psmove_listener.cpp:80-103 | After the other threads were asked to stop and have ended, the request is withdrawn, DisconnectComplete is raised once and the loop goes on. |
| `ListenerProgress.GoesOn` | psmove_listener.cpp:80-108 | Without a request, the loop goes on to look for controllers and signals nothing. |
| `Primes.IsPrimeSample1` | gtest-1.6.0/samples/sample1.cc:47-68 | Decides primality for every integer. |
| `Primes.Factorial` | gtest-1.6.0/samples/sample1.cc:37-44 | The product 1 * 2 * ... * n, and 1 for n < 1. |
| `Primes.OnTheFlyPrimeTable.IsPrime` | gtest-1.6.0/samples/prime_tables.h:58-67 | Decides primality for every integer. |
| `Primes.OnTheFlyPrimeTable.GetNextPrime` | gtest-1.6.0/samples/prime_tables.h:69-75 | Ends, and returns the least prime above p if and only if p >= 0; for p < 0 it returns -1. |
| `Primes.PreCalculatedPrimeTable.CalculatePrimesUpTo` | gtest-1.6.0/samples/prime_tables.h:102-114 | The sieve leaves true exactly the entries of the primes. |
| `Primes.PreCalculatedPrimeTable.IsPrime` | gtest-1.6.0/samples/prime_tables.h:89-91 | True exactly for the primes up to the table's maximum. |
| `Primes.PreCalculatedPrimeTable.GetNextPrime` | gtest-1.6.0/samples/prime_tables.h:93-99 | The least prime above p if it is in the table, else -1. |
| `Primes.HybridPrimeTable.IsPrime` | gtest-1.6.0/samples/sample8_unittest.cc:62-67 | Decides primality whatever the table's size. |
| `Primes.HybridPrimeTable.GetNextPrime` | gtest-1.6.0/samples/sample8_unittest.cc:69-75 | For p >= 0 the least prime above p, as the on-the-fly table returns it; the two differ at p = -1. |
| `Primes.TrialDivision` | gtest-1.6.0/samples/sample1.cc:56-64 | A number without a divisor up to its square root is prime. |
| `Primes.PrimeAbove` | gtest-1.6.0/samples/prime_tables.h:69-75 | There is a prime above every integer (Euclid): why the search ends. |
| `Primes.NextPrimeUnique` | gtest-1.6.0/samples/prime_tables.h:69-75 | The next prime is determined, so tables that return it agree. |
| `Queue.Queue.Enqueue` | gtest-1.6.0/samples/sample3-inl.h:117-128 | Appends the element; the list stays one chain from `head_` to `last_`, of length `size_`, without a node twice. |
| `Queue.Queue.Dequeue` | gtest-1.6.0/samples/sample3-inl.h:132-148 | Returns and removes the oldest element; NULL exactly if the queue is empty. |
| `Queue.Queue.Clear` | gtest-1.6.0/samples/sample3-inl.h:84-100 | Empties the queue, going over each node once and reading its link before it is deleted. |
| `Queue.Queue.Map` | gtest-1.6.0/samples/sample3-inl.h:153-161 | A new queue with nodes of its own and the function's values in order, and the original as it was. |
| `Queue.PerformAll` | gtest-1.6.0/samples/sample3-inl.h:84-161 | Every run of Enqueue, Dequeue, Clear and Map is a run on a sequence: same contents, same results. |
| `Queue.FirstInFirstOut` | gtest-1.6.0/samples/sample3-inl.h:117-148 | In every run of Enqueue and Dequeue, the elements returned, followed by those left, are those that were there and were added, in order. |

## Left out

- The POSIX regex branch, and the messages that the regex validator reports.
- The loop bound `max_count` in `MatchRepetitionAndRegexAtHead` is the largest `size_t` less one; strings are assumed shorter than that.
- AtomMatchesChar and the character classes are modelled with Unicode characters; C's `char` is a part of them.
- RegexFullMatch.RE.constructor: asks for room for the two anchors and the NUL in `size_t`, which the original does not check.
- linked_ptrs of different types on one circle (conversions between base and derived classes), and the mutex itself.
- Capturing one raw pointer twice, which the original forbids its users.
- Freed memory: deletion is an entry in a log, and a destroyed linked_ptr is no longer registered.
- The conversions of string lengths to `int` in `WideStringToUtf8`.
- Line-end normalization and the document type of XML 1.0; decimal references, and hexadecimal ones of other lengths, which are not written either.
- The printers' other parts: character codes in parentheses, pointers, containers and bytes.
- ShouldShard and its environment variables; a sharding request is assumed to have passed its checks.
- In a run of all tests: environments, listeners, the flag that lists tests, results and their effect on the run, and endless repetition; any number of iterations is covered.
- TestRegistry.UnitTestImpl.AddTestInfo: needs fewer than 2^31 cases and tests in a case, since their indices are of type `int`.
- Shuffling.ShuffleRange: the two checks that abort the program on a bad range are its precondition.
- Primes.PreCalculatedPrimeTable.constructor: needs a maximum of at least 1, since the original writes the entry of 1 without a check.
- Primes.PreCalculatedPrimeTable.GetNextPrime: needs p >= -1, since the original would read before the table for smaller p.
- Machine integers in the prime samples: `i*i` and the product in `Factorial` do not overflow here, and the search for the next prime does not wrap around.
- Queue elements' copy constructors, and the destructor, which only calls `Clear`.
- Key tables, configuration, LED colours and timing, calibration, log files and the uinput device.
- KEY_MAX is 0x2ff as in Linux's input event codes; only the order of the special key codes above it matters.
- HandlerProperties.RunsAlternate: starts anew at each reset, because `reset` clears the buttons without reporting their release.
- HandlerProperties.RunsHoldGesturesUnderTrigger: assumes that no gesture button is mapped to the trigger, because such a gesture would press or release the trigger itself.
- HandlerKeys.KeysFollowReports: is about ordinary key codes with one entry; a key of several buttons is sent for each of them.
- HandlerModel.HandleSpecialKeys: special key codes can reach the key signal, as in the original: a released mouse wheel key, or a trigger of the other controller.
- Static conversions of distances beyond `int`.
- Gyroscope and gesture signals of the controller threads, the gesture counter, Bluetooth addresses, the moved mode and poll timeouts; a thread may end at any time.
- Data races while a thread cleans up, and between `detach` and `join`.
- PSMoveListener.PSMoveListener.Run: is followed for any given number of laps, since the original loops until it is stopped.
- Destruction of the listener.
