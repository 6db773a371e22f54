# Verified models of Kairix's bundled tools

Kairix ships iperf3 with its cJSON library, a small freestanding libc for its ext4
driver, and a generator for U-Boot scripts. This project models the parts of them that
carry the hardest promises and proves those promises in Dafny.

- **cJSON** (`Json*.dfy`, `ParseBuffer.dfy`, `PrintBuffer.dfy`, `SiblingList.dfy`,
  `DuplicateTree.dfy`). The language that cJSON reads, which is wider than RFC 8259, is
  written down as trees with their text and their meaning. The parser function is proved
  to accept exactly the texts of this language, each as what it denotes; the renderer is
  proved to write texts of RFC 8259, in a layout that is described on the text alone; and
  the two together give the round trip. The buffer
  parser and the buffer printer, with their offsets, their growing memory and their
  two-pass size estimates, are methods proved against those functions. Sibling chains
  with their circular `prev` link are objects on the heap.
- **Timers** (`IperfTime.dfy`, `TimerRun.dfy`, `Timers.dfy`). A sorted doubly linked list
  and a free list on the heap, tied to sequences; one pass of the run loop is a function
  with a termination measure whose effect on each timer is proved.
- **iperf3 control connection** (`Control*.dfy`). Client and server are state machines
  that take turns in any order over two byte channels, which deliver in pieces of any
  size. Bytes remember what they were written as, and no reader looks at that mark; the
  main result is that nothing is ever read as something else. Documents are real
  frames: the printed JSON text behind a four-byte length, read by the parser above. Client and
  server objects that are updated in place take these steps, and a session of the two
  under any schedule carries the results over to them.
- **Measuring** (`UdpLoss.dfy`, `Pacing.dfy`, `Intervals.dfy`). Loss counting, the bound
  that pacing keeps, and the balance between intervals and totals.
- **Freestanding libc** (`ShellSort.dfy`, `StringCopy.dfy`). A sort of byte blocks and a
  copy by words, both in place on arrays.
- **SATA writer** (`SataWriter.dfy`). The generator is a compiler; the script is run on a
  model of the machine.

Some promises do not hold of the code as it stands. The models keep the code's behaviour
and state when the promise is met:

- Negative integers are printed as unsigned 64-bit numbers (iperf/src/cjson.c:592), so
  the round trip is exact only for trees without them. On the control connection every
  negative `int` arrives as -1, which is what the results rely on.
- A number of more than 63 characters is cut (iperf/src/cjson.c:346): a text that holds one
  is refused, and a bare one is accepted in part where the terminator is not required.
- The language is wider than RFC 8259: any control character is a blank, strings may hold
  control characters, numbers may have leading zeros or no digits on one side of the
  point, a byte order mark may come first, and after `\u` four bytes that are no
  hexadecimal number count as code point zero.
- A decoded string that holds an escape for code point zero ends there for a C caller.
- Appending an item whose own `next` is set leaves a chain that is not well shaped
  (iperf/src/cjson.c:2001-2009).
- A print into a caller's buffer needs two bytes more than the text; the advice of five in
  iperf/src/cjson.h:166 is safe.
- A tree compares equal to another one with the same contents, such as its copy, exactly
  when every child of an object has a name and the values under each repeated name compare
  equal to the first of them. A member that repeats a name with an equal value is not seen
  at all. (A tree and itself, the same pointer, always compare equal.)
- A periodic timer that is more than a period late can still be due after a run, because
  the walk goes on from a saved next timer. The exact condition is stated for one periodic
  timer among one-shot timers; for several, being less than a period late suffices.
- Two due periodic timers of period zero with the same deadline keep the run loop going for
  ever; no other list does.
- Stream ids are 1, 3, 4, ... and not consecutive.
- A negative number of streams passes the command line (iperf/src/iperf_api.c:1290-1296),
  and then the two sides wait for each other. Every other test can be finished.
- A repeated UDP packet hides a loss exactly when it arrives while another packet is missing.
- A negative chunk size passes the checks of the script generator and gives a script that
  writes nothing and reports success; a negative part size gives one that fails, because no
  image can be cut into such parts.

Numbers are exact reals where the source uses doubles, and integers are unbounded except
where a width is written out. Of the `%1.15g` and `%1.17g` conversions of the C library only
this is used: each gives some number of the grammar of at most 25 characters. The clock, the
sockets, the heap and the socket writes are parameters.

## Model

| member | source | states |
|---|---|---|
| JsonString.ParsesLiteral | iperf/src/cjson.c:798-924 | Every literal that parse_string can read, and so every one of section 7 of RFC 8259, is consumed exactly and decoded to the UTF-8 of its code points, surrogate pairs joined; it is rejected exactly when it holds a lone surrogate |
| JsonString.StringIsLiteral | iperf/src/cjson.c:798-924 | Whatever parse_string accepts is such a literal, read as what it denotes, even when a bad hexadecimal escape makes the two passes disagree |
| JsonString.NulComesFromEscape | iperf/src/cjson.c:677-795 | A decoded literal holds a NUL, where a C caller sees it end, exactly when one of its escapes is for code point zero or is no hexadecimal number |
| JsonNumber.StrtodReadsNumeral | iperf/src/cjson.c:378-384 | The strtod scan takes every number of the grammar whole, and those with leading zeros or a bare point, and gives its exact value |
| JsonNumber.StrtodTakesNumeral | iperf/src/cjson.c:378-384 | Whatever the strtod scan takes of a token that starts with a minus or a digit is such a number, with its value |
| JsonNumber.NumeralMeans | iperf/src/cjson.c:378-384 | The value of a number is its whole part and its fraction, times the power of ten of its exponent, with its sign |
| JsonNumber.ParsesNumeral | iperf/src/cjson.c:330-404 | A number that is not followed by another token character is read whole and exactly when it has at most 63 characters; of a longer one some number is read, and the parse ends inside it |
| JsonNumber.DecimalValue | iperf/src/cjson.c:590-593 | The printed decimal digits of a natural number denote that number |
| JsonParser.DepthLimited | iperf/src/cjson.c:1337-1389 | No accepted value nests more than 1000 containers, counted from the current depth |
| JsonGrammar.ParsesSyntax | iperf/src/cjson.c:1337-1389 | At any offset and depth, the parser reads a value of the language, which contains the RFC 8259 grammar, as what it denotes and stops right behind it, or fails exactly when it is too deep, holds a lone surrogate or contains a number of more than 63 characters; a bare number of that length is cut |
| JsonGrammar.ParsesItems | iperf/src/cjson.c:1466-1561 | The element loop reads exactly the elements between the brackets, in order, or fails exactly when one of them cannot be read whole |
| JsonGrammar.ParsesMembers | iperf/src/cjson.c:1626-1736 | The member loop reads exactly the names and values between the braces, in order, or fails exactly when one of them cannot be read whole |
| JsonGrammar.ParsesEveryText | iperf/src/cjson.c:1120-1197 | Every text of the language, with surrounding blanks and with or without a byte order mark, is accepted as the value it denotes if and only if it nests at most 1000 deep and holds no lone surrogate and no number of more than 63 characters, and the reported end is exact with and without the terminator check; only a bare long number without that check is accepted in part |
| JsonGrammar.StandardIsValid | iperf/src/cjson.c:1120-1197 | Every tree of the RFC 8259 grammar is one of the language |
| JsonLanguage.ValueIsSyntax | iperf/src/cjson.c:1337-1389 | Whatever the parser reads as a value, at any offset and depth, is a value of the language, read whole as what it denotes |
| JsonLanguage.AcceptedIsText | iperf/src/cjson.c:1120-1197 | Whatever part of any C string is parsed is a text of the language up to where the parse ended, read as what it denotes |
| JsonLanguage.AcceptsExactly | iperf/src/cjson.c:1120-1197 | Over all C strings: with the terminator required, a text is parsed as a value if and only if it is a text of the language, at most 1000 deep and with numbers of at most 63 characters, that denotes this value |
| JsonGrammar.NulFreeDocument | iperf/src/cjson.c:1104-1117 | No text of the grammar contains a NUL, so the C string entry sees all of it |
| JsonRender.Spells | iperf/src/cjson.c:1392-1463 | The printed text of a value, formatted or compact, is a text of the RFC 8259 grammar that denotes the value as it will be read back |
| JsonRender.NumberSpells | iperf/src/cjson.c:570-637 | Every printed number, integer or not, is a number of the grammar of at most 25 characters that denotes what will be read back |
| JsonRender.IntegersArePrinted | iperf/src/cjson.c:590-606 | Integers of 64 bits are printed by their digits, negative ones with 2^64 added, and all other numbers by the C library |
| JsonRender.RoundTrip | iperf/src/cjson.c:1200-1203 | Parsing the printed text of any value consumes exactly that text and yields the value with each negative integer n replaced by n + 2^64 and each other number by what its printed text denotes, and fails exactly when it nests more than 1000 deep |
| JsonRender.ReadBackIsIdentity | iperf/src/cjson.c:590-593 | Reading back changes nothing if and only if the tree holds no negative integer and the text of each other number denotes it exactly |
| JsonRender.RoundTripsExactly | iperf/src/cjson.c:1277-1285 | Print then parse returns the same tree and consumes the whole text if and only if the tree nests at most 1000 deep, holds no negative integer, and the text of each other number denotes it exactly |
| JsonRender.EscapesAreShortest | iperf/src/cjson.c:927-1046 | Of all literals of a byte the printed one is the shortest, with lower case digits |
| JsonLayout.PrintedLayout | iperf/src/cjson.c:1739-1850 | For every value: outside literals the compact text holds no blank; the formatted text without its blanks is the compact text; and before every token of the formatted text stand exactly the blanks that belong there, a line break and a tab for each open container before a member, one tab less before a closing brace, a space after a comma between elements, a tab after a colon, and nothing else |
| JsonTrip.NumberComesBackClose | iperf/src/cjson.c:594-605 | A number comes back within the tolerance of compare_double if and only if it is an integer that is not negative, or its text of 15 or of 17 digits is within that tolerance |
| JsonTrip.ComparesAsReturned | iperf/src/cjson.c:3011-3134 | For every tree, with repeated names too: what is read back compares equal to it if and only if all its numbers come back close and, where a name is repeated, what comes back of either member compares equal to the other |
| JsonTrip.TripComparesEqual | iperf/src/cjson.c:1277-1285 | The printed text of every tree is parsed exactly when it nests at most 1000 deep, and the result compares equal to the tree under exactly that condition; for distinct names it is that all numbers come back close |
| JsonEstimate.UnitsAreBytesLessSkipped | iperf/src/cjson.c:811-842 | The first pass estimates the bytes of the literal less one for each escape it counts |
| JsonEstimate.WrittenWithinBudget | iperf/src/cjson.c:844-902 | What the second pass writes stays within the estimate even when a bad hexadecimal escape makes the two passes disagree about where escapes start |
| JsonEstimate.EstimateSuffices | iperf/src/cjson.c:811-902 | For every input, the bytes written and the terminator fit the allocation |
| ParseBuffer.ParseHex4 | iperf/src/cjson.c:640-673 | The loop over four digits computes their value, and 0 when one is not a hexadecimal digit |
| ParseBuffer.EncodeUtf8 | iperf/src/cjson.c:740-787 | The backwards loop writes the UTF-8 encoding of the code point (section 3 of RFC 3629) and no other byte |
| ParseBuffer.Utf16LiteralToUtf8 | iperf/src/cjson.c:677-795 | One escape or surrogate pair is decoded into the output, or nothing is changed when it is malformed |
| ParseBuffer.Buffer.SkipWhitespace | iperf/src/cjson.c:1063-1086 | The offset moves over blanks only and never past the terminator |
| ParseBuffer.Buffer.ParseNumber | iperf/src/cjson.c:330-404 | Reads at most 63 characters inside the text; the offset moves on by exactly what strtod took |
| ParseBuffer.Buffer.MeasureString | iperf/src/cjson.c:811-842 | The first pass finds the closing quote and allocates the estimated size |
| ParseBuffer.Buffer.UnescapeInto | iperf/src/cjson.c:844-902 | The second pass writes exactly the decoded bytes inside the allocation, or stops at the escape it cannot decode |
| ParseBuffer.Buffer.ParseString | iperf/src/cjson.c:798-924 | The literal is accepted exactly when it can be decoded; the result is the C string of the decoded bytes |
| ParseBuffer.Buffer.ParseValue | iperf/src/cjson.c:1337-1389 | Refines the parser function: same value, same end, depth restored on success, all reads inside the text and its NUL, and the bytes left are the termination measure |
| ParseBuffer.Buffer.ParseArray | iperf/src/cjson.c:1466-1561 | Refines the array parser, with the nesting limit and the depth restored on success |
| ParseBuffer.Buffer.ParseItems | iperf/src/cjson.c:1500-1538 | The element loop refines the recursive element parser |
| ParseBuffer.Buffer.ParseObject | iperf/src/cjson.c:1626-1736 | Refines the object parser, with the nesting limit and the depth restored on success |
| ParseBuffer.Buffer.ParseMembers | iperf/src/cjson.c:1659-1714 | The member loop refines the recursive member parser |
| ParseBuffer.Buffer.ParseName | iperf/src/cjson.c:1682-1702 | A member name and its colon, read only inside the text and its NUL |
| ParseBuffer.ParseWithOpts | iperf/src/cjson.c:1104-1197 | The entry point refines the parser function, with the byte order mark, the leading blanks and the optional terminator check; with that check it accepts exactly the texts of the language, as what they denote |
| PrintBuffer.Buffer.Ensure | iperf/src/cjson.c:464-547 | Grows the buffer or not, keeps everything before the offset, and succeeds exactly when the buffer has room or, if it may grow, the heap grants twice the size or, above half the address range, the largest size |
| PrintBuffer.Buffer.UpdateOffset | iperf/src/cjson.c:550-560 | Advances over exactly the pending text, found by its NUL |
| PrintBuffer.Buffer.PrintNumber | iperf/src/cjson.c:570-637 | Appends the text of the number, terminated, for every number |
| PrintBuffer.CountEscapes | iperf/src/cjson.c:954-977 | The first pass counts exactly the bytes that escaping adds |
| PrintBuffer.EscapeInto | iperf/src/cjson.c:997-1046 | The second pass writes exactly the escaped bytes and keeps what stands before |
| PrintBuffer.Buffer.PrintString | iperf/src/cjson.c:927-1046 | Appends the quoted text, terminated, or fails because it does not fit |
| PrintBuffer.Buffer.PrintValue | iperf/src/cjson.c:1392-1463 | Every write is inside the buffer; what was written before is kept, followed by the rendered value, terminated; in a fixed buffer it succeeds exactly when there is room for two bytes more than the text, in a growing one whenever the heap can hold twice that |
| PrintBuffer.Buffer.PrintArray | iperf/src/cjson.c:1564-1623 | Appends the rendered array and restores the depth |
| PrintBuffer.Buffer.PrintItems | iperf/src/cjson.c:1587-1611 | The loop appends the rendered elements with their separators |
| PrintBuffer.Buffer.PrintObject | iperf/src/cjson.c:1739-1850 | Appends the rendered object and restores the depth |
| PrintBuffer.Buffer.PrintMembers | iperf/src/cjson.c:1766-1830 | The loop appends the rendered members |
| PrintBuffer.Buffer.PrintName | iperf/src/cjson.c:1768-1801 | Appends the indentation, the quoted name and the colon |
| PrintBuffer.Print | iperf/src/cjson.c:1212-1285 | The growing print yields the rendered value, and succeeds whenever the heap can hold twice the text |
| PrintBuffer.PrintBuffered | iperf/src/cjson.c:1287-1315 | For every first guess of the size, the text is the same as that of the growing print |
| PrintBuffer.PrintPreallocated | iperf/src/cjson.c:1317-1334 | Succeeds if and only if the buffer has two bytes more than the text, and then holds the same text, terminated |
| SiblingList.GetArrayItem | iperf/src/cjson.c:1876-1893 | Walks to the index-th child, null past the end |
| SiblingList.AddItemToArray | iperf/src/cjson.c:1981-2012 | Appends at the end; the chain is well shaped afterwards if and only if it was empty or the item had no next sibling of its own |
| SiblingList.DetachItemViaPointer | iperf/src/cjson.c:2212-2246 | Removes exactly the k-th child, keeps the chain well shaped and clears the links of the detached item |
| SiblingList.InsertItemInArray | iperf/src/cjson.c:2288-2315 | Inserts before the child at the index, keeping the shape, or appends when there is none |
| SiblingList.ReplaceItemViaPointer | iperf/src/cjson.c:2317-2364 | Puts the replacement in the place of the k-th child, keeping the shape |
| Json.IntegersAreTold | iperf/src/cjson.c:562-567 | compare_double tells two integers below 2^52 in size apart exactly when they differ, and two neighbours exactly when the larger is below 2^52 |
| JsonCompare.CompareDecidesSame | iperf/src/cjson.c:3011-3134 | For trees with distinct names per object, the comparison holds if and only if the trees are equal up to the order of members, numbers up to compare_double |
| JsonCompare.CompareIsSymmetric | iperf/src/cjson.c:3011-3134 | For all trees, with repeated names too, the comparison does not depend on which tree comes first |
| JsonCompare.CompareIsReflexive | iperf/src/cjson.c:3011-3134 | For every tree: it compares equal to another tree with the same contents if and only if in every object each member is the first of its name or compares equal to the first of its name |
| JsonCompare.SameIsSymmetric | iperf/src/cjson.c:3093-3129 | Equality up to the order of members is symmetric |
| JsonCompare.RepeatIsInvisible | iperf/src/cjson.c:3093-3129 | For every object and member: the object with that member appended compares equal to the object without it if and only if the repeated names agree and the member repeats a name with an equal value |
| JsonCompare.RepeatedNamesMislead | iperf/src/cjson.c:3093-3129 | Two objects of repeated names that differ and compare equal, and one that differs from its own copy |
| DuplicateTree.Attach | iperf/src/cjson.c:2783-2795 | A copied child is linked behind the last one and the chain of copies stays linked |
| DuplicateTree.Close | iperf/src/cjson.c:2798-2801 | Setting the head's prev completes the shape of the copied chain |
| DuplicateTree.Duplicate | iperf/src/cjson.c:2731-2812 | The copy is made of new items only, none used twice, is well shaped at every level and has the same contents |
| DuplicateTree.CompareIff | iperf/src/cjson.c:3011-3134 | For all trees of items: the comparison, with a search that never finds a child without a name and ends at one, holds if and only if every child of an object has a name in both trees and the values they stand for compare equal |
| DuplicateTree.DuplicateComparesEqual | iperf/src/cjson.c:3011-3134 | A copy compares equal to its source if and only if every child of an object has a name and the repeated names agree |
| DuplicateTree.UnnamedChildDiffers | iperf/src/cjson.c:1905-1935 | An object with a child without a name differs from its own copy |
| IperfTime.AddUsecs | iperf/src/iperf_time.c:72-81 | Adds exactly that many microseconds and leaves a normalised stamp |
| IperfTime.Compare | iperf/src/iperf_time.c:102-114 | The sign of the difference in microseconds |
| IperfTime.Diff | iperf/src/iperf_time.c:124-156 | The distance in microseconds, normalised, and whether the first stamp is not later |
| TimerRun.InsertSplits | iperf/src/timer.c:60-96 | Insertion puts a timer after all that are not later and before all that are later |
| TimerRun.WalkSorted | iperf/src/timer.c:176-199 | The active list is sorted after a run |
| TimerRun.WalkFiresInOrder | iperf/src/timer.c:176-199 | Only deadlines that have come fire, in nondecreasing order |
| TimerRun.WalkServes | iperf/src/timer.c:176-199 | A timer that is not due stays as it is; a due one-shot timer fires exactly once and is freed; a due periodic timer fires at least once and its deadline moves on one period per firing |
| TimerRun.RunServesAll | iperf/src/timer.c:176-199 | For every sorted list on which the loop ends: termination by the total lateness, order of firing, service of every timer, and a sorted list at the end |
| TimerRun.RunEndsIff | iperf/src/timer.c:176-199 | For every sorted list: the loop ends if and only if no two due periodic timers of period zero have the same deadline |
| TimerRun.NothingLeftDue | iperf/src/timer.c:176-199 | When no periodic timer is a whole period late, nothing is due after the run |
| TimerRun.NothingLeftDueIff | iperf/src/timer.c:176-199 | For one periodic timer among any number of one-shot timers: nothing is due after the run if and only if every period of it that ends by now holds the deadline of a timer behind it in the list |
| TimerRun.LoneTimerFiresOnce | iperf/src/timer.c:176-199 | A lone periodic timer fires once per run however late it is, and is still due afterwards if and only if it was a whole period late |
| Timers.LinkBetween | iperf/src/timer.c:60-96 | Linking a timer between two neighbours or at an end keeps the list doubly linked |
| Timers.Unlink | iperf/src/timer.c:99-108 | Unlinking a timer keeps the list doubly linked |
| Timers.TimerList.ListAdd | iperf/src/timer.c:60-96 | The new timer goes behind all timers that are not later; the list stays sorted and doubly linked |
| Timers.TimerList.ListResort | iperf/src/timer.c:111-118 | A timer with a new deadline goes to its place; no timer is lost |
| Timers.TimerList.TmrCreate | iperf/src/timer.c:121-150 | Reuses the first free timer or allocates one, and inserts it by its deadline, for every period; nothing changes when memory runs out |
| Timers.TimerList.TmrTimeout | iperf/src/timer.c:153-173 | The least time left over all active timers, zero if one is due, and none when the list is empty |
| Timers.TimerList.TmrRun | iperf/src/timer.c:176-199 | Whenever the loop ends at all, the loop over the linked list is the walk over the sorted sequence: it fires only deadlines that have come and in order, serves every timer of the list, frees the fired one-shot timers in order, and loses none |
| Timers.TimerList.TmrReset | iperf/src/timer.c:202-211 | The timer gets the deadline now plus its period and its place in the order; no timer is lost |
| Timers.TimerList.TmrCancel | iperf/src/timer.c:214-223 | The timer leaves the active list and becomes the first free one; the active list stays doubly linked and sorted, and no timer is lost |
| Timers.TimerList.TmrCleanup | iperf/src/timer.c:226-236 | Every free timer is released once, the active ones stay |
| Timers.TimerList.TmrDestroy | iperf/src/timer.c:239-245 | Every timer ever kept is released exactly once |
| ControlFrame.BigEndianRoundTrip | iperf/src/iperf_api.c:2653-2654 | The four length bytes give the length back |
| ControlFrame.FrameIsRead | iperf/src/iperf_api.c:2668-2705 | The reader of any frame, whatever its text, waits until all of it is there, then takes exactly the frame and gets what the parser makes of the text, which may be nothing |
| ControlFrame.FrameArrives | iperf/src/iperf_api.c:2643-2705 | However the connection cuts the bytes, the reader of a frame waits until all of it is there, then takes exactly the frame and gets the document back, whatever follows |
| ControlMessages.MemberArrives | iperf/src/cjson.c:1905-1935 | A member found first in the document that was sent is found first in the one that arrives |
| ControlMessages.AbsentArrives | iperf/src/cjson.c:1905-1935 | A member that was not sent is not found |
| ControlMessages.CaseIsIgnored | iperf/src/cjson.c:1922-1926 | Member names are looked up without regard to the case of letters, and of letters only |
| ControlMessages.ValueIntIs | iperf/src/cjson.c:386-398 | The integer of a number is its part before the point, towards zero, kept within 64 bits |
| ControlMessages.CountArrives | iperf/src/cjson.c:386-398 | A count below 2^53 arrives exactly |
| ControlMessages.IntArrives | iperf/src/cjson.c:386-398 | A nonnegative int arrives exactly; every negative int arrives as -1, because it is printed unsigned, saturates and is cut |
| ControlMessages.ParametersArrive | iperf/src/iperf_api.c:2144-2338 | The server takes the stream count of the client, or -1 for any negative one, and the mode that faces the client's, whatever other parameters surround them |
| ControlMessages.NothingRequested | iperf/src/iperf_api.c:2285-2293 | Without these parameters the server takes one stream, to receive on |
| ControlResults.ReportArrives | iperf/src/iperf_api.c:2413-2430 | The report of a stream is read with every count as it was sent, and jitter and duration as their printed text denotes them |
| ControlResults.AbsorbReports | iperf/src/iperf_api.c:2516-2608 | The loop over the reports with its search by id updates the streams in place as the fold over the reports does |
| ControlResults.OlderPeer | iperf/src/iperf_api.c:2562-2573 | What a side makes of a peer that does not report omitted counts |
| ControlResults.ReportsArrive | iperf/src/iperf_api.c:2516-2608 | Every report finds the stream with its id, and each stream takes in the report of its other end |
| ControlResults.ResultsArrive | iperf/src/iperf_api.c:2343-2638 | The results document is taken in without an error and leaves exactly the state that the other side's counters determine |
| ControlResults.ToldKnows | iperf/src/iperf_api.c:2551-2605 | After get_results a side knows what the other side measured, bytes, packets, errors, retransmits and processor times, and what it measured itself is unchanged |
| ControlResults.ToldIsValid | iperf/src/iperf_api.c:2551-2605 | Taking in results keeps all counters in range |
| ControlResults.KnowingIsAgreeing | iperf/src/iperf_api.c:2343-2638 | Two sides that know each other's results hold the same bytes and errors for every stream; the receiver holds the retransmits of the sender, or -1 if the sender's test does not count them, and the sender the printed jitter of the receiver |
| ControlResults.ResultsFit | iperf/src/iperf_api.c:2643-2664 | The results of at most 128 streams in each direction fit the four-byte length of a frame |
| ControlProtocol.AddStream | iperf/src/iperf_api.c:4475-4497 | The stream at position k gets the id 1 for k = 0 and k + 2 otherwise |
| ControlRun.InitialHolds | iperf/src/iperf_client_api.c:361-406 | The state after the client connected and sent its cookie satisfies the invariant |
| ControlRun.ClientMessageHolds | iperf/src/iperf_client_api.c:258-357 | Whatever state byte the client reads, the invariant is kept: the byte is the one its stage expects |
| ControlRun.ClientConnectHolds | iperf/src/iperf_client_api.c:54-134 | Each stream the client makes keeps the invariant, in every mode |
| ControlRun.ClientResultsHolds | iperf/src/iperf_api.c:2121-2139 | The client takes in the server's results and then both sides know each other's |
| ControlRun.ClientEndHolds | iperf/src/iperf_client_api.c:653-681 | Ending the test keeps the invariant |
| ControlRun.ServerCookieHolds | iperf/src/iperf_server_api.c:109-177 | Reading the cookie takes cookie bytes only and keeps the invariant |
| ControlRun.ServerParametersHolds | iperf/src/iperf_api.c:2059-2116 | The server reads the parameters document and nothing else, and asks for the streams |
| ControlRun.ServerStreamHolds | iperf/src/iperf_server_api.c:697-801 | Accepting a stream gives it the direction that faces the client's; the test starts exactly when all are there |
| ControlRun.ServerMessageHolds | iperf/src/iperf_server_api.c:181-250 | Whatever state byte the server reads, the invariant is kept |
| ControlRun.ServerResultsHolds | iperf/src/iperf_server_api.c:203-221 | The server takes in the client's results before it sends its own |
| ControlRun.MeasuresHold | iperf/src/iperf_client_api.c:617-651 | Any further measuring on either side, within the ranges of the counters, keeps the invariant |
| ControlRun.RunHolds | iperf/src/iperf_server_api.c:494-830 | The invariant holds in every state of every run |
| ControlRun.StepReadsOwn | iperf/src/iperf_client_api.c:258-357 | Where the invariant holds, every step that is possible takes only bytes that were written as what it reads them as |
| ControlRun.NothingIsMisread | iperf/src/iperf_client_api.c:258-357 | In every run, for any stream count that the command line accepts, negative ones too, any mode and any cutting of the bytes: whatever step comes next takes only bytes that were written as what it reads them as, and there is no unknown message and no failed document |
| ControlRun.StreamsMatch | iperf/src/iperf_server_api.c:697-735 | In every run, streams at equal positions have equal ids and opposite directions |
| ControlRun.DoneAgrees | iperf/src/iperf_server_api.c:203-223 | When both sides are done, all streams were made and, for every one of them, both sides know what the other measured and hold the same sent and received bytes, errors and retransmits |
| ControlRun.StepProgresses | iperf/src/iperf_client_api.c:566-692 | Every step other than measuring brings the protocol forward or a byte closer to its reader |
| ControlRun.NeverStuck | iperf/src/iperf_client_api.c:566-692 | As long as a side is not done, some step other than measuring is possible, unless the client asked for a negative number of streams and the server waits for them |
| ControlRun.StuckIff | iperf/src/iperf_server_api.c:740-801 | In a state of a run no step is possible if and only if both sides are done, or the stream count is negative and both wait in CREATE_STREAMS |
| ControlRun.CanFinish | iperf/src/iperf_client_api.c:566-692 | From every state of every run, both sides can reach IPERF_DONE when the stream count is not negative, and both come to wait for each other when it is |
| ControlRun.FinishesIff | iperf/src/iperf_api.c:1290-1296 | A test can come to its end on both sides if and only if its stream count is not negative |
| ControlRun.MinusOneNeverFinishes | iperf/src/iperf_api.c:1290-1296 | With a stream count of -1 no run ends with both sides done, and every run can be led to a state without any step |
| ControlObjects.IperfClient.CreateStream | iperf/src/iperf_client_api.c:54-134 | Adding one stream in place is the connect step of the protocol |
| ControlObjects.IperfServer.AcceptOne | iperf/src/iperf_server_api.c:697-735 | Accepting a stream connection, by the counters of both directions, is the stream step of the server |
| ControlSession.Session.Turn | iperf/src/iperf_server_api.c:573-827 | One turn of a client and a server object, or a delivery between them, is possible exactly when the protocol allows the step, reads only bytes that were written for it, and leaves both objects in the state of the protocol after it |
| ControlSession.Session.Run | iperf/src/iperf_client_api.c:566-692 | Taking the steps of any schedule in order, and passing over those that cannot be taken, neither object fails; once both are done, they hold the same id, opposite directions and the same totals for each of the streams asked for |
| ControlSession.Session.Finish | iperf/src/iperf_server_api.c:573-827 | Taking any possible step as long as there is one ends, with both objects done and agreed for every stream count from zero on, and with both waiting in CREATE_STREAMS for a negative one |
| UdpLoss.Receiver.Receive | iperf/src/iperf_udp.c:142-171 | After every packet packet_count is the highest number seen, outoforder_packets the number of packets that were not above it when they came, and cnt_error at most the number missing below it, and equal to that when no packet repeats one while another is missing |
| UdpLoss.LateIsCounted | iperf/src/iperf_udp.c:142-171 | For all arrivals, the highest number is kept and every arrival that is not above the highest before it is counted as out of order |
| UdpLoss.LossIsExact | iperf/src/iperf_udp.c:142-171 | For distinct packets in any order, packet_count is the highest number and cnt_error is exactly how many below it are missing |
| UdpLoss.LossIsNeverOverstated | iperf/src/iperf_udp.c:142-171 | With packets that arrive more than once, cnt_error is at most the number missing |
| UdpLoss.OrderDoesNotMatter | iperf/src/iperf_udp.c:142-171 | For distinct packets the counters do not depend on the order of arrival |
| UdpLoss.LossIsExactIff | iperf/src/iperf_udp.c:142-171 | For all arrivals of packets numbered from one: cnt_error is exact after every packet if and only if no packet repeats an earlier one while another is missing |
| UdpLoss.DuplicateHidesLoss | iperf/src/iperf_udp.c:160-166 | A repeated packet that hides a loss |
| Pacing.ThrottleDecides | iperf/src/iperf_api.c:1815-1833 | The green light is given exactly when the bits sent are below rate times elapsed time, and is left alone without a target rate |
| Pacing.SendOneKeeps | iperf/src/iperf_api.c:1905-1916 | After every single send the bound holds at that moment, and the totals of the stream and the test grow by what the socket took of the block on offer |
| Pacing.TurnKeeps | iperf/src/iperf_api.c:1898-1918 | A turn over the streams, whether it ends early or not, leaves at most one more block unchecked per stream |
| Pacing.SendingKeeps | iperf/src/iperf_api.c:1876-1934 | For any outcome of the writes, every stream keeps 8 * bytes <= rate * elapsed + 8 * blksize * max(1, burst); unless a write fails, a stream is green again only below its target rate; the total of the test grows by as much as those of the streams |
| Pacing.SentBlocks | iperf/src/iperf_tcp.c:84-108 | A TCP stream has sent whole blocks but for what is pending of the last one, and a write finishes a block exactly when nothing of it is left |
| Pacing.SendingBlocks | iperf/src/iperf_api.c:1876-1934 | For any outcome of the writes, the blocks counted are those that the TCP streams finished, or the UDP writes that succeeded |
| Pacing.TurnServes | iperf/src/iperf_api.c:1898-1918 | In a turn every stream with a green light and a ready socket sends what its socket takes of the block, or of what is left of it, up to where a failed write or a limit cuts the turn short; no other stream is touched |
| Pacing.TurnKeepsLimits | iperf/src/iperf_api.c:1901-1904 | A turn that is not the last goes past a limit of the test by less than a block |
| Pacing.SendsInEveryTurn | iperf/src/iperf_api.c:1876-1934 | Without limits, and with sockets that take all, a stream that may send does so once in each of the turns that the burst, or the multisend setting without a target rate, asks for |
| Pacing.Test.SendTimer | iperf/src/iperf_api.c:1983-1993 | The pacing timer rechecks one stream and keeps the bound |
| Pacing.Test.SendTurn | iperf/src/iperf_api.c:1898-1918 | The loop over the streams, with its early exits, takes exactly the specified turn |
| Pacing.Test.Send | iperf/src/iperf_api.c:1876-1934 | The nested loops take exactly the specified turns and the final check, keep the bound, and keep the totals equal to those of the streams: bytes, and blocks finished on TCP or written on UDP |
| Pacing.Test.ResetStats | iperf/src/iperf_api.c:3207-3216 | The totals of the test start over, those of the streams go on |
| Intervals.ClosedIsSound | iperf/src/iperf_api.c:3244-3320 | Closing an interval keeps the balance of bytes and of retransmits, makes packet, error and out-of-order counts telescope to the counters and retransmits to what the system counted, and starts where the last interval ended |
| Intervals.Test.Send | iperf/src/iperf_tcp.c:84-108 | A send keeps the balance; a UDP packet is counted even when its write fails |
| Intervals.Test.Receive | iperf/src/iperf_tcp.c:55-76 | A receive counts only while the test is running and keeps the balance |
| Intervals.Test.StatsCallback | iperf/src/iperf_api.c:3244-3328 | One more interval with what was transferred since the last; outside omitting, the intervals that count then add up to the reported bytes of every stream and to the retransmits that the system counted since measuring began; UDP counts add up to the counters |
| Intervals.Test.EndOmitting | iperf/src/iperf_api.c:3207-3234 | Ending the omitted time starts the balance over from zero for every stream, and retransmits count from the system's total at that moment |
| Intervals.Test.EndTest | iperf/src/iperf_client_api.c:675-681 | At the end of a test the intervals that count add up to the reported bytes and to the system's retransmits of every stream, and what is received later is not counted |
| ShellSort.ExchangeElements | lwext4_rust/c/ulibc.c:136-142 | Swapping the bytes of two elements swaps the elements and nothing else |
| ShellSort.MoveDown | lwext4_rust/c/ulibc.c:129-142 | Moving an element one gap down keeps all other pairs in order |
| ShellSort.SwapBlocks | lwext4_rust/c/ulibc.c:136-142 | The byte loop exchanges exactly the two blocks |
| ShellSort.Sink | lwext4_rust/c/ulibc.c:123-143 | The inner loop puts one more element in order among those a gap apart |
| ShellSort.Pass | lwext4_rust/c/ulibc.c:120-145 | A pass leaves all elements that are a gap apart in order and permutes the elements |
| ShellSort.FirstGap | lwext4_rust/c/ulibc.c:109-115 | The first gap is of the form 3g + 1 down to 1 and below the number of elements |
| ShellSort.NextGap | lwext4_rust/c/ulibc.c:146-147 | The byte gap of each pass is exactly the next gap times the width |
| ShellSort.QsortR | lwext4_rust/c/ulibc.c:95-149 | For every count, width and comparator the elements are permuted; for every total preorder on blocks of that width they are sorted |
| StringCopy.HasZeroIff | lwext4_rust/c/ulibc.c:9-12 | HASZERO is nonzero exactly when some byte of the word is zero |
| StringCopy.SplitWord | lwext4_rust/c/ulibc.c:28-29 | A word that is loaded and stored keeps its bytes |
| StringCopy.CopyWords | lwext4_rust/c/ulibc.c:26-31 | The word loop stops at the word that holds the NUL, having copied everything before it |
| StringCopy.Stpcpy | lwext4_rust/c/ulibc.c:14-38 | For every alignment, exactly the string and its NUL are copied, nothing else changes, and the result points at the copied NUL |
| SataWriter.ChunkInPart | tools/generate-sata-writer.py:47-57 | Each chunk lies inside one part file, at the offset the command names, and is the right piece of the image |
| SataWriter.ChunkDone | tools/generate-sata-writer.py:54-61 | Loading and writing a chunk extends the written prefix of the disk by that chunk |
| SataWriter.BatchDone | tools/generate-sata-writer.py:62-65 | Running a batch of slots extends the prefix by its chunks, whatever stale commands other slots hold |
| SataWriter.AddBatch | tools/generate-sata-writer.py:42-66 | The lines of one batch have that effect |
| SataWriter.BuildCommands | tools/generate-sata-writer.py:19-75 | A geometry is rejected exactly when a size is zero or not a multiple; otherwise the script starts the stick and selects the disk before it uses them and, run on any image of that size, leaves the disk holding the image, every byte written exactly once and nothing behind it touched, if and only if chunk and part size are positive; a negative chunk size writes nothing, and with a negative part size the run fails for want of part files |
| SataWriter.NegativeChunkIsAccepted | tools/generate-sata-writer.py:20-25 | A chunk size of -512 is accepted |
| SataWriter.BatchFails | tools/generate-sata-writer.py:47-66 | An image cannot be cut into parts of negative size, so there are no part files to load from, and with such a part size every batch fails at its first load |

## Left out

- JsonRender.RoundTrip: NaN and infinities, which are printed as null, and the rounding of decimal text to the nearest double are not modelled.
- PrintBuffer.Buffer.PrintValue: for a growing buffer the heap sizes between the text and twice the text are not decided, because they depend on how the buffer grew before.
- ParseBuffer.ParseWithOpts: the error position, and failure of the parser's own allocations, are not modelled.
- JsonCompare.CompareDecidesSame: members have names; children without one are covered by DuplicateTree.CompareIff.
- DuplicateTree.Duplicate: the non-recursive form, references and allocation failure are not modelled.
- Timers.TimerList.TmrRun: callbacks that edit the lists during the run and the wrap-around of 32-bit seconds are not modelled.
- TimerRun.NothingLeftDue: gives a sufficient condition for several periodic timers; the exact one is stated for one periodic timer in TimerRun.NothingLeftDueIff.
- ControlRun.RunHolds: error, termination and timeout paths are not followed further than the failure they lead to.
- ControlMessages.ParametersArrive: of the parameters only the stream count and the direction flags are interpreted; all others are arbitrary members around them.
- Intervals.Test.StatsCallback: window sizes and round-trip times from TCP_INFO are not modelled.
- Pacing.Test.Send: a test that is done is not modelled, because the check then does nothing.
- StringCopy.Stpcpy: addresses are indices into one memory that holds whole words.
- cJSON_Minify, raw items, references, hooks and locales.
- The case-insensitive form of cJSON_Compare.
- Sockets, select, options, signals, logging, authentication and report printing of iperf3.
- diskfile_send and diskfile_recv.
- units.c, dscp.c, iperf_locale.c, iperf_error.c and argument parsing: tables or easy members.
- strcmp, strncmp, memset and strcpy of ulibc.c: easy members beside the two that are modelled.
- The text of the U-Boot commands and the call of mkimage: the script is a list of command values.
- tools/patch-loongarch-musl-sched.py and tools/wrap-uimage.py: fixed offsets and finite encodings.
- The Rust sources around lwext4, whose C library is not part of this model.
