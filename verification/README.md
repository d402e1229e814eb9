# cJSON and the heartbeat monitor, modelled and proved

A Dafny model of the JSON library in `libs/cJSON.c`, of the timers and notices of the heartbeat monitor in
`src/monitor.c`, and of the configuration reader in `src/argparse.c`. `dafny verify dfyconfig.toml` checks it.

The JSON part has three layers.

- **Values and texts.** `Values.Json` is the value of an item. Its numbers are the doubles of IEEE 754 (`Doubles`), with
  `strtod` and the two formats of `print_number` as exact functions on them (`NumberTexts`). `Reader` says offset by offset
  what the parser computes and `Writer.PrintText` what the printer writes. `Grammar` holds the texts of RFC 8259, and the
  wider ones that the code takes, as concrete syntax trees. The parser accepts exactly these; the round trip and the
  theorems about minifying go through them too.
- **Items on the heap.** `Items.Item` has the fields of `cJSON`, changed in place, and `Items.Memory` keeps a ledger of
  the live blocks and may turn down any request. A ghost `Shape` is a snapshot of a tree: its items, its value, and the
  blocks that deleting it gives back.
- **Methods.** The parser, printer, duplication, deletion, comparison, list edits and minifying are methods with the
  loops and branches of the original, each proved against the functions of the first layer and against the ledger.

The monitor is a state machine (`Monitor`) whose steps the event handlers in `MonitorProcess` are proved to take; its
theorems are about every run. The configuration reader has a meaning (`Config`) and a reader object (`Arguments`) that
is proved to compute it, down to the linked list of targets that the monitor then splits.

| file | what it holds |
|---|---|
| `ByteStrings.dfy`, `Numbers.dfy`, `Doubles.dfy`, `NumberTexts.dfy`, `Values.dfy` | bytes, C strings, number literals, doubles and rounding, their decimal texts, values |
| `Unicode.dfy`, `Strings.dfy`, `StringSyntax.dfy` | `\u` escapes and UTF-8, the two-pass decoder, the syntax and escaping of strings |
| `Reader.dfy`, `Grammar.dfy`, `Writer.dfy`, `Minify.dfy`, `Compare.dfy` | the parser as a function and just the texts it accepts, the printed text and the round trip, minifying, equality |
| `Items.dfy`, `ListEdits.dfy`, `Additions.dfy`, `Parser.dfy`, `PrintBuffers.dfy`, `Printer.dfy`, `CompareItems.dfy`, `Cycle.dfy` | the same on the heap and in buffers |
| `Monitor.dfy`, `MonitorProcess.dfy` | runs of the monitor, its event handlers |
| `Config.dfy`, `Arguments.dfy` | configuration files, the reader and the target splitter |

Where the code and its documentation differ, the model follows the code: `libs/cJSON.h:153` advises 5 bytes more than
needed for `cJSON_PrintPreallocated`, while the text and two bytes are exactly enough (`Printer.PrintPreallocated`).
The parser accepts more than RFC 8259: unescaped control characters and zero escapes in strings, numbers such as `01`, `1.`
and `-.5`, any bytes up to 32 as blanks, a byte order mark, and behind `\u` four bytes that are no hex digits, which count
as 0; when these swallow a backslash, the last escape may even reach over the closing quote. `Grammar.Loose` is all of it
and no more (`Grammar.AcceptedExactly`).

Three things the code does not do for every input are stated exactly, each with an input that fails. A value equals its
own copy under `cJSON_Compare` if and only if it is comparable (`Compare.EqualsItself`):
`Compare.RepeatedNameDiffersFromItself` gives an object that differs from itself because it repeats a name. A text nested
more than 1000 deep is printed but not read back (`Writer.RoundTrip` says both): `Writer.NestedIsReadBack` does it with
arrays of any depth. And reading and printing keeps a value if and only if no number in the text overflows a double
(`Writer.ReprintKeepsValue`): `Writer.OverflowIsPrintedAsNull` gives 1e400, which is read as infinity and printed as `null`.

## Model

| member | source | states |
|---|---|---|
| Writer.RoundTrip | libs/cJSON.c:1024-1455 | for every plain tree, formatted or not: parsing the printed text gives an equal tree, every number the same double, and ends on the terminator if it nests at most 1000 deep, and fails otherwise |
| Writer.RoundTripOfAnyValue | libs/cJSON.c:402-455 | the same for every tree without Raw and Invalid items, up to what print loses: non-finite numbers become null, absent strings and names empty, names of array elements go |
| Writer.ReprintKeepsValue | libs/cJSON.c:847-912 | whatever text was accepted, its value is printed, the printed text is accepted whole, and it has the same value if and only if no number of the first text overflows |
| Writer.OverflowIsPrintedAsNull | libs/cJSON.c:402-416 | 1e400 is accepted as infinity, printed as `null` and read back as null |
| Writer.NestedIsReadBack | libs/cJSON.c:1140-1143 | n arrays one in the other are printed for every n, and read back if and only if n is at most 1000 |
| Cycle.Reprint | libs/cJSON.c:919-973 | parsing, printing and deleting leaves just the printed text allocated, or nothing with the reason; the text is accepted whole and keeps the value if and only if no number overflows |
| Writer.PrintTextNulFree | libs/cJSON.c:391-399 | no printed text holds a NUL, so finding the end with `strlen` is right |
| Writer.SameText | libs/cJSON.c:704-712 | absent strings print like empty ones and non-finite numbers like null, at any depth |
| Writer.PrintedIsStandard | libs/cJSON.c:1071-1455 | what is printed of a plain value is a text of RFC 8259 for it, numbers and escapes included |
| Writer.ArrayLayout | libs/cJSON.c:1216-1266 | elements between brackets, with commas, and a space behind each when formatted |
| Writer.ObjectLayout | libs/cJSON.c:1362-1455 | members between braces; formatted, one to a line behind as many tabs as containers are open, a tab behind the colon, and the closing brace on its own line |
| Writer.PrintableExactly | libs/cJSON.c:1071-1133 | a value is refused if and only if an Invalid item or a Raw one without text is in it |
| Writer.RawStandsFor | libs/cJSON.c:1105-1119 | a Raw item that holds a value's text prints as the value does |
| Grammar.AcceptedExactly | libs/cJSON.c:847-912 | with `require_null_terminated`, a text is accepted if and only if it is a text of the wide syntax, with or without a byte order mark, nested at most 1000 deep |
| Grammar.AcceptedIsDocument | libs/cJSON.c:847-912 | whatever is accepted, with the flag or without, is such a text up to the reported end, and the value is the one the syntax gives it |
| Grammar.OnlyValuesStart | libs/cJSON.c:1024-1068 | a text whose first byte behind mark and blanks starts no value is refused |
| Grammar.DocumentIsRead | libs/cJSON.c:1024-1068 | every text of the wide syntax is accepted with the value the syntax gives it, whatever the blanks, if it nests at most 1000 deep, and refused if not |
| Grammar.StartIsRead | libs/cJSON.c:847-912 | without the flag the value at the start is read whatever follows it, a number up to where number bytes end |
| Grammar.StandardIsRead | libs/cJSON.c:1024-1068 | every text of RFC 8259 with numbers of at most 63 bytes and no unpaired surrogate or zero escape is among them, and is read as its value if it nests at most 1000 deep |
| Grammar.ValueTaken | libs/cJSON.c:1024-1068 | what the parser takes for a value, at any offset and depth, is a text of the wide syntax with that value |
| Grammar.ReadsValue | libs/cJSON.c:1024-1068 | a value of the grammar is read up to its last byte, at any offset and depth |
| Grammar.ReadsElems | libs/cJSON.c:1166-1196 | the comma loop reads all elements, with names for objects, and stops on the closing bracket |
| Grammar.InputStart | libs/cJSON.c:834-844 | a byte order mark is skipped and nothing else is taken for one |
| Reader.WholeTextAccepted | libs/cJSON.c:874-881 | with `require_null_terminated`, a text is accepted exactly when a value is found and only bytes up to 32 follow it |
| Reader.AcceptedHeight | libs/cJSON.c:1140-1143 | accepted values nest at most 1000 deep, counting what is around them |
| Reader.ParseValue | libs/cJSON.c:1024-1068 | a success moves forward and stays inside the buffer; a failure is reported at an offset of the buffer (which texts succeed, and with what value, `Grammar.ValueTaken` and `Grammar.ReadsValue` say) |
| Numbers.NumeralExactly | libs/cJSON.c:230-294 | a text is taken whole for a number if and only if it has at most 63 bytes and is an optional minus, digits on at least one side of an optional point, and an optional exponent |
| Numbers.LongestIsTaken | libs/cJSON.c:272-292 | no number that a text starts with is longer than what is taken of it |
| Numbers.StrtodEndPrefix | libs/cJSON.c:272-292 | what is taken of a longer text is a number by itself |
| Numbers.NumberIsRead | libs/cJSON.c:272-292 | the number read is exactly the one that sign, digits, fraction and exponent give |
| Doubles.StrtodReads | libs/cJSON.c:274-276 | and what is stored is the nearest double of its sign, or the infinity from half way behind the largest double on |
| Doubles.NearestIsNearest | libs/cJSON.c:274 | no double is nearer to a number than the one `strtod` gives, and of two as near it gives the even one |
| NumberTexts.NumberTextIsRead | libs/cJSON.c:415-427 | reading what `print_number` writes of a finite double gives just this double, sign of zero and subnormal doubles included |
| NumberTexts.SeventeenDigits | libs/cJSON.c:422-426 | 17 digits always name the double |
| NumberTexts.FormattedIs | libs/cJSON.c:408-434 | the text is a number of RFC 8259 of at most 24 bytes, so it fits the buffer and its length check never fails, and its value is the double rounded to that many digits |
| NumberTexts.FormattedStyle | libs/cJSON.c:418-426 | an exponent is written if and only if that of the rounded number is below -4 or not below the precision, then behind one digit and with its sign and at least two digits; no fraction ends in 0, and no point stands alone |
| NumberTexts.IntegersArePlain | libs/cJSON.c:418-426 | every double that is an integer of at most 15 digits is printed as its digits and sign alone |
| NumberTexts.RoundedIs | libs/cJSON.c:420-425 | rounding to p digits gives exactly p digits and is off by at most half a unit of the last one |
| NumberTexts.RoundedTie | libs/cJSON.c:420-425 | half way between two such numbers the even one is taken |
| NumberTexts.ShortNumbersStay | libs/cJSON.c:418-424 | a number of at most 15 significant digits, zero or in the range of the normal doubles, is printed with exactly the value it was written with |
| NumberTexts.LargeOverflows | libs/cJSON.c:272-292 | 1e400 is a number of the standard that is read as infinity |
| Unicode.Utf8Carries | libs/cJSON.c:543-573 | the bytes written for a code point carry just that code point |
| Unicode.Utf8IsShortest | libs/cJSON.c:543-573 | no shorter sequence carries it |
| Unicode.SingleEscape | libs/cJSON.c:486-530 | a scalar value below 0x10000, in hex digits of either case, comes out as its UTF-8 form |
| Unicode.PairEscape | libs/cJSON.c:506-529 | so does a surrogate pair, as section 2.2 of RFC 2781 joins it |
| Unicode.UnpairedSurrogate | libs/cJSON.c:502-526 | a unit is accepted if and only if it is no surrogate, or a high one with a low one right behind it |
| Unicode.ParseHex4 | libs/cJSON.c:458-482 | the digit loop yields the number spelled, or 0 |
| Unicode.Hex4Is | libs/cJSON.c:458-482 | and that is the number by the table of the 22 hex digits |
| Unicode.Utf16LiteralToUtf8 | libs/cJSON.c:486-581 | writes exactly the UTF-8 form, touches nothing in front of it, and never takes the branch for code points over 0x10FFFF |
| Strings.DecodeFits | libs/cJSON.c:595-675 | the decoder never writes more than the scan pass counted, for any text between the quotes, malformed `\u` included |
| Strings.StepFits | libs/cJSON.c:622-667 | one decode step writes no more than the scan steps it uses up, even when it is out of step with the scan |
| Strings.ScanPass | libs/cJSON.c:595-611 | the scan loop finds the closing quote and counts the escapes before it |
| Strings.DecodeInto | libs/cJSON.c:619-673 | the decode loop writes what the specification says inside the estimate, or fails where it says (what it says is in `StringSyntax.StringIsRead` and `StringSyntax.ReadIsString`) |
| StringSyntax.StringIsRead | libs/cJSON.c:584-683 | every string of the syntax is read up to just behind the closing quote, with the bytes that the table of RFC 8259, the hex digits and UTF-8 give its characters, up to a zero |
| StringSyntax.ReadIsString | libs/cJSON.c:584-683 | and whatever is read as a string is one of these, with that value |
| StringSyntax.ValidStrIsLoose | libs/cJSON.c:584-683 | the strings of RFC 8259 are among them, and their value is that of all their characters |
| StringSyntax.EscapesAreThese | libs/cJSON.c:721-796 | what the printer writes for each byte: a letter escape for seven of them, four lower-case hex digits for the other control characters, itself for the rest |
| StringSyntax.PrintedStringIsRead | libs/cJSON.c:698-803 | `parse_string` undoes `print_string_ptr` on every C string |
| Items.DeleteFrom | libs/cJSON.c:185-201 | frees every block the rest of a list owns, each once and only if live: neither a reference's child and value nor a constant name |
| Items.DeleteOne | libs/cJSON.c:189-198 | the same for one item and what is below it |
| Items.SuffixObject | libs/cJSON.c:1530-1533 | appends to a doubly linked list and leaves every tree in it as it was |
| Items.DuplicateItem | libs/cJSON.c:2120-2183 | a copy of equal value made of new blocks and items, all of them live and none occurring twice, or NULL with nothing kept, wherever memory runs out; the flags but that of a reference are kept, and a shallow copy has no children |
| Items.IntOfIs | libs/cJSON.c:281-288 | `valueint` is the number with its fraction cut off toward zero, and saturates at both ends of int |
| Items.SameItem | libs/cJSON.c:185-201 | the heap determines the snapshot of an item: its value, its children and what deleting it frees |
| Items.CopyList | libs/cJSON.c:2154-2173 | the children loop hangs copies below the new item in order, as many as could be had |
| Items.CopyStrings | libs/cJSON.c:2138-2149 | strings are copied, constant names shared |
| Parser.ParseWithOpts | libs/cJSON.c:847-912 | on success the text, up to the end reported, is one of the wide syntax with the value of the result, whose items are new and occur once each and whose blocks are just the live ones; on NULL the text is refused by the specification or memory ran out, every block was freed once, and the error position is inside the buffer |
| Parser.ParseValue | libs/cJSON.c:1024-1068 | fills the item as the specification says, restores the depth, and on failure leaves the item empty and nothing allocated |
| Parser.ParseContainer | libs/cJSON.c:1136-1213 | the same for arrays and objects, nesting limit included |
| Parser.ParseMembers | libs/cJSON.c:1300-1359 | the do loop builds the list of all members, or deletes what it made |
| Parser.FillLast | libs/cJSON.c:1178-1194 | parsing into an item that already hangs in the list keeps the list |
| Parser.ParseName | libs/cJSON.c:1318-1334 | the name moves from `valuestring` to `string`, and the colon is required |
| Parser.ParseString | libs/cJSON.c:584-695 | the item gets the string, or the buffer is freed and the cursor stands where decoding gave up |
| Parser.ParseNumber | libs/cJSON.c:230-294 | the scanning loop and the prefix taken, the nearest double or infinity, and its `valueint`, cut to an integer and saturated at both ends; or no change |
| Parser.ParseBuffer.SkipWhitespace | libs/cJSON.c:817-831 | stops on the first byte above 32, or on the terminator |
| PrintBuffers.PrintBuffer.Ensure | libs/cJSON.c:320-388 | space is reserved inside the buffer with the text kept, or memory ran out, or the limit would be passed; growth has copied at most twice the buffer's size |
| PrintBuffers.PrintBuffer.Grow | libs/cJSON.c:354-387 | the text moves to a buffer of the new size, with or without realloc, and the old one is freed |
| PrintBuffers.PrintBuffer.Adopt | libs/cJSON.c:365-384 | a growth that at least doubles, or reaches the cap, keeps the bound on the bytes copied |
| PrintBuffers.PrintBuffer.Write | libs/cJSON.c:718-720 | bytes are stored only in the space just reserved |
| PrintBuffers.PrintBuffer.UpdateOffset | libs/cJSON.c:391-399 | the cursor moves to the end of what was written |
| Printer.CountEscapes | libs/cJSON.c:721-742 | the first pass counts just the bytes that escaping adds |
| Printer.CopyEscaped | libs/cJSON.c:761-796 | the second pass writes the escaped text and ends where the closing quote belongs |
| Printer.PrintStringPtr | libs/cJSON.c:698-803 | the quoted text stands in the buffer, or there was no room |
| Printer.NumberDigits | libs/cJSON.c:402-434 | `null` for infinities and NaN, and otherwise 15 digits when they give the double back, else 17; always at most 25 bytes |
| Printer.PrintNumber | libs/cJSON.c:402-455 | the text of the number stands in the buffer with its terminator, or there was no room or memory |
| Printer.PrintValue | libs/cJSON.c:1071-1133 | the text of the specification stands behind what was printed, or the value cannot be printed, memory ran out, or the text and two bytes do not fit |
| Printer.PrintArray | libs/cJSON.c:1216-1266 | the same for arrays |
| Printer.PrintObject | libs/cJSON.c:1362-1455 | the same for objects, with their indentation |
| Printer.PrintItems | libs/cJSON.c:1235-1255 | the loop prints all children with separators |
| Printer.PrintPreallocated | libs/cJSON.c:1006-1021 | succeeds if and only if the value can be printed and its text plus 2 is at most `len`; the bytes behind `len` are never written |
| Printer.PrintBuffered | libs/cJSON.c:980-1004 | the text does not depend on the first size or on realloc; NULL only if the value cannot be printed, memory ran out or the text is too long, and then nothing is kept |
| Printer.Print | libs/cJSON.c:919-973 | the text in a block of exactly its size |
| Minify.MinifyUndoesFormatting | libs/cJSON.c:2185-2231 | for every tree without Raw and Invalid items, minifying the formatted text gives exactly the unformatted text |
| Minify.PartsAreMinified | libs/cJSON.c:2185-2231 | of any text made of blanks, comments of both kinds, strings and other bytes, minifying keeps the strings and other bytes and nothing else |
| Minify.TextIsParts | libs/cJSON.c:2185-2231 | every text whose comments and strings end is made of these |
| Minify.MinifyKeepsAccepted | libs/cJSON.c:2185-2231 | every text that is accepted as a whole is still accepted, with the same value, when minified |
| Minify.MinifyKeepsMeaning | libs/cJSON.c:2185-2231 | on every text of the wide syntax, minifying changes neither acceptance nor value |
| Minify.MinifyInPlace | libs/cJSON.c:2185-2231 | the loop over read and write cursor leaves the minified text, and no write overtakes a read |
| Minify.CopyString | libs/cJSON.c:2214-2223 | strings are kept byte for byte |
| Compare.EqualDecides | libs/cJSON.c:2312-2417 | the answer is yes if and only if both values are comparable and mean the same, numbers by the value of the double, arrays as sequences and objects as maps |
| Doubles.EqualDoubles | libs/cJSON.c:2344-2348 | two doubles compare equal if and only if they are the same or both zero |
| Compare.EqualOnUnambiguous | libs/cJSON.c:2378-2410 | with unique names and no absent parts it decides equality, and every such value equals itself |
| Compare.EqualIsPartialEquivalence | libs/cJSON.c:2312-2417 | symmetric and transitive on all values, repeated names included |
| Compare.EqualsItself | libs/cJSON.c:2312-2417 | a value equals its copy if and only if it is comparable |
| Compare.RepeatedNameDiffersFromItself | libs/cJSON.c:2378-2410 | an object that repeats a name with two values does not equal its copy |
| Compare.FindIsLookup | libs/cJSON.c:1502-1521 | the first child of a name is what the map of the object holds |
| Compare.FindIsFirst | libs/cJSON.c:1502-1521 | the first child of the name, and none only if no child has it |
| Compare.LowerTable | libs/cJSON.c:93-109 | the 26 capitals fold to their small letters and nothing else changes |
| Compare.SameIgnoringCaseIs | libs/cJSON.c:93-109 | names agree if and only if they have one length and fold to the same bytes |
| CompareItems.CompareItems | libs/cJSON.c:2312-2417 | the pointer-walking comparison says yes to all equal values, and no to all others when one of them is comparable or the trees share no item; one and the same item is equal to itself if and only if it is valid |
| CompareItems.GetObjectItem | libs/cJSON.c:1502-1521 | finds the first child of that name, in either case mode |
| CompareItems.SameIgnoringCase | libs/cJSON.c:93-109 | the loop finds no difference if and only if the lower-cased strings are equal |
| ListEdits.ChildrenUnique | libs/cJSON.c:1478-1492 | the heap determines the list of children |
| ListEdits.GetArrayItem | libs/cJSON.c:1478-1492 | walks to the item of that index, or NULL |
| ListEdits.AddItemToArray | libs/cJSON.c:1554-1575 | appends; the list stays acyclic and linked both ways |
| ListEdits.InsertItemInArray | libs/cJSON.c:1788-1809 | inserts at the index, appends past the end, ignores a negative one |
| ListEdits.DetachItemViaPointer | libs/cJSON.c:1734-1757 | takes the item out and leaves its links NULL |
| ListEdits.DetachItemFromArray | libs/cJSON.c:1759-1765 | the same by index |
| ListEdits.ReplaceItemViaPointer | libs/cJSON.c:1811-1838 | the replacement stands where the item was, and the item's blocks are freed |
| ListEdits.InsertTree | libs/cJSON.c:1788-1809 | inserting a tree below a parent makes the tree with that child at that place, no item occurs twice, and nothing below any child changes |
| ListEdits.DetachTree | libs/cJSON.c:1734-1757 | detaching leaves the tree without that child, and the child a tree that stands alone |
| ListEdits.InsertedMeans | libs/cJSON.c:1788-1809 | the parent's value gains the member at that place, and what it owns gains just the blocks of the child |
| ListEdits.DetachUndoesInsert | libs/cJSON.c:1734-1809 | inserting a tree and detaching it gives back the parent's tree, the item with NULL links, and its tree |
| ListEdits.AddTree | libs/cJSON.c:1554-1575 | appending a tree below a parent makes the tree with that last child and changes nothing below any child |
| Additions.AddItemToObject | libs/cJSON.c:1592-1621 | the object's value gains a last member of that name and its blocks those of the item; a name of its own that the item had is freed, a constant key is not copied, and without memory nothing changes |
| Additions.NameItem | libs/cJSON.c:1592-1618 | the item keeps its value and children and owns its new name unless that is constant |
| Additions.CreateReference | libs/cJSON.c:1536-1552 | a reference has the value and the children of the item and owns its own block alone |
| Additions.ReferAndDelete | libs/cJSON.c:1536-1552 | creating and deleting a reference leaves the item, its tree and the live blocks as they were |
| Monitor.NoticesAlternate | src/monitor.c:175-199 | in every run a target's notices go up, down, up and so on, and it is online when the last one said up |
| Monitor.OnlineExactly | src/monitor.c:175-199 | once time t is processed, a target is online if and only if some answer a of its satisfies a <= t < a + err |
| Monitor.TimerFromLastAnswer | src/monitor.c:189-199 | the timer of an online target runs from its last answer |
| Monitor.DownOnceAfterLastAnswer | src/monitor.c:175-199 | after the last answer, at a, exactly one notice follows: down, at a + err; an offline target's timer says nothing |
| Monitor.NoFalseAlarm | src/monitor.c:155-199 | if every poll is answered within D and poll + D < err, no run reports the target down |
| Monitor.PollTimes | src/monitor.c:230-237 | in every run the k-th poll of a target comes exactly k periods after the start |
| Monitor.PollsSoFar | src/monitor.c:230-237 | once all polls due by t have come, they number (t - start) / poll |
| Monitor.TimeoutTimes | src/monitor.c:175-199 | the error timer fires exactly at the multiples of its period after the last answer, or after the start |
| Monitor.UpOnAnswer | src/monitor.c:189-199 | an answer makes one notice, up, at its own time, when no other came within the period before it, and none when one did |
| Monitor.PollFollowsAnswer | src/monitor.c:230-237 | after every answer the next poll comes within a period |
| Monitor.RunsGoOn | src/monitor.c:230-237 | no timer is ever overdue and every run can be continued |
| MonitorProcess.Process.constructor | src/monitor.c:230-237 | the timers are set and no target is online |
| MonitorProcess.Process.HandlePollEvent | src/monitor.c:155-173 | the step of the machine, and a message when the lookup and the sending work |
| MonitorProcess.Process.HandleErrEvent | src/monitor.c:175-187 | the step of the machine |
| MonitorProcess.Process.ResetErrorTimer | src/monitor.c:189-199 | the step of the machine |
| MonitorProcess.Process.HandleAnswer | src/monitor.c:201-219 | the step for the target the answer is attributed to, or none |
| MonitorProcess.Process.GetTarget | src/monitor.c:143-153 | the first target whose address is the client's; a failed lookup counts as an address of zeros |
| Config.ConfigRoundTrip | src/monitor.c:68-99 | targets written as lines, among comments, blanks and other keys, are read and split back, the same and in order |
| Config.LastAssignmentWins | src/argparse.c:55-84 | for every sequence of assignments: the last one to an int or string key counts, lists collect all in order, an unassigned key keeps its value |
| Config.AtoiIs | src/argparse.c:59-61 | an int key gets the decimal number behind white space and a sign, whatever follows its digits, and 0 without digits |
| Config.KeyIsRead | src/argparse.c:55-84 | an int or string variable takes the value of the last line of its key in the file |
| Config.LinesAreRead | src/argparse.c:114-147 | reading a file of lines finds their assignments in order |
| Config.PropertyIsRead | src/argparse.c:123-137 | only the first `=` splits |
| Config.SplitUndoesJoin | src/monitor.c:76-93 | splitting at the first and last colon undoes joining; the host may hold colons |
| Config.JoinUndoesSplit | src/monitor.c:76-93 | joining undoes splitting |
| Arguments.Slot.Append | src/argparse.c:66-79 | a list variable gets a new cell behind its last one, found by walking the cells |
| Arguments.Reader.StoreAt | src/argparse.c:58-81 | writes through one registered pointer and leaves every other variable and list as it was |
| Arguments.Reader.RegisterPointer | src/argparse.c:86-98 | both tables grow by the key, and the variable keeps what it held |
| Arguments.Reader.GetRegisteredPointer | src/argparse.c:46-53 | the first entry of the key |
| Arguments.Reader.GenericCallback | src/argparse.c:55-84 | assigns to the first variable registered under the key |
| Arguments.Reader.ReadProperties | src/argparse.c:114-147 | every variable ends up as the assignments of the file say, the list variables as lists without common cells, and the tables are emptied; a missing file changes nothing |
| Arguments.SplitTargets | src/monitor.c:68-100 | the loop over the cells splits all targets in order |
| Arguments.RegisterVariables | src/monitor.c:61-65 | the four variables are registered under their keys with their defaults |
| Arguments.ReadConfiguration | src/monitor.c:57-100 | the reading half of `init`: the targets are those of the file's lines, split and in order, and name and intervals come from the last lines of their keys |
| Arguments.IntervalIsConfigured | src/monitor.c:63-64 | the poll and error intervals are the decimal numbers on the last lines of their keys |

## Left out

- Doubles.Strtod: rounds to nearest, as IEEE 754 has it by default; underflow sets `errno` in C, which the code does not read. Locales other than C are not modelled.
- NumberTexts.ShortNumbersStay: subnormal doubles hold fewer digits and are left out of it.
- Numbers.NumeralExactly: numbers over 63 bytes are cut by the code; they are in no text of the syntax.
- Reader.ParseValue: where a text is refused, the offset reported is stated to be the specification's and inside the buffer, and no more.
- Items.DuplicateItem: the `valueint` of the children is not part of their snapshots.
- Additions.AddItemToObject: the object must not be a reference, and the item must stand alone and share nothing with it.
- Unicode.Utf16LiteralToUtf8: shifts and masks are written as arithmetic.
- Parser.ParseContainer: one method stands for `parse_array` and `parse_object`, which differ in brackets and names only; their checks for the first byte and for the end of the buffer cannot fail behind `parse_value` and are not repeated.
- Parser.ParseWithOpts: the global error record is the returned offset.
- Items.Item: strings are heap blocks of their own, and an item that shares a string or a child it does not own is not deleted through it. Cyclic trees are excluded.
- CompareItems.CompareItems: between trees that share items, and with neither value comparable, it may say yes where the specification says no; a child without a name counts as not found in case-sensitive mode, where the code would dereference NULL.
- ListEdits.ReplaceItemViaPointer: the item must be a child of the parent and its tree must not reach its siblings, the replacement or the parent, for deleting it would free those.
- ListEdits.InsertedMeans: a parent that is a reference, which does not own its children, is left out.
- Minify.MinifyInPlace: comments and strings without an end, where the code reads past the terminator, are excluded.
- Printer.PrintBuffered: a first size of 0 without realloc is excluded; with it the code copies from an empty buffer.
- PrintBuffers.PrintBuffer: `size_t` does not wrap, as all sizes stay below `INT_MAX`.
- Config.Atoi: works on integers without bounds; overflow is undefined in C.
- Config.SplitTarget: a target with just one colon, for which the code copies with a negative length, is excluded by a precondition; none at all ends the program.
- Config.ConfigRoundTrip: lines over 255 bytes, which the reader takes in pieces, are modelled but not part of the theorem.
- Arguments.Reader.RegisterPointer: a variable is registered once, and two list variables have no cell in common; the fixed sizes of keys and values are not modelled, as a line never exceeds them.
- Monitor: two events at the same time happen in some order; the order in which libevent would pick them is open. Lookups and the success of sending are inputs. A timer fires exactly when it is due.
- Sockets, DNS, libevent, curl, signals, `src/beat.c`, `src/telegram.c` and `src/logtime.c`, and the one-line creators and type tests of cJSON, are not part of this model.
