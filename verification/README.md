# Verified models of dpsio, icomm, mech and the media server

This project models the parts of the repository whose correctness is not visible from reading one
function: the JSON parser and printer, the read-ahead cache of the media server, the host protocol
with its framing, the threads that speak it and the queue behind them, the command line of the
control connection, the media tree with its index and its search, and the packet checksums of the
LabJack driver. Where the source changes state in place, so does the model, in classes and over
arrays; each such method is tied to a specification function, and the properties are proved about
that function over every input or every run.

| files | what they model |
|---|---|
| `Json*.dfy` | `jsonParse` with its 32-entry stack, its circular lists and its unescaping in place; the number conversion over exact reals; `dumpValue`; the zone allocator; the boxed words. `JsonNumeral`, `JsonSpelling` and `JsonDocuments` say what numerals, strings and texts of RFC 8259 mean, however they are written; `JsonErrors` what each mistake gives |
| `Cache.dfy`, `CacheSafety.dfy`, `CacheProgress.dfy`, `CacheDelivery.dfy` | filler and reader as two processes with one mutex and two counting semaphores; each stretch of code under the lock, each unlocked test and each semaphore operation is one step |
| `Icomm*.dfy` | messages with a 128-row field table and a bitmap in hex, sticky padding, reading from a byte stream and from a string, frames with a check byte |
| `Session.dfy`, `SessionLaws.dfy`, `SessionMainLaws.dfy` | the step machines of the main and the control thread against any host, and the laws of their conversations, stated over the conversations alone |
| `LocalQueue.dfy` | the queue of local buffers, filled and emptied under one mutex |
| `Tokenizer.dfy`, `TokenizerQuotes.dfy` | the three passes of the command line tokenizer over one buffer |
| `MediaTree.dfy`, `MediaContents.dfy`, `MediaIndex.dfy`, `MediaSearch.dfy` | scanning directories into a tree of entries, the index by id, bounded recursive search |
| `Checksum.dfy` | both implementations of the packet checksums |
| `ByteStrings.dfy`, `Decimals.dfy`, `Options.dfy` | bytes, decimal numerals, options |

Several properties that the code suggests hold only under a condition. Each is stated as an
equivalence, with a concrete failing case beside it:

- Number conversion is exact unless the exponent overflows its 32-bit counter
  (`ConversionExactIff`, `ExponentWraps`).
- Parsing gives a printed value back exactly when every number is a multiple of 10^-6, every string
  can be read, the value nests at most 32 deep and its nodes can be supplied (`RoundTrip`,
  `ThirdIsRounded`).
- The parser steps over the terminating NUL exactly when white space that no open string takes in
  ends the text and the tokens before it end too early (`OverrunsIff`, `LastIsOverrunIff`,
  `OpenStringKeepsSpace`).
- An allocation lies inside its zone unless the request wraps around (`BlockInsideIff`,
  `WrappedRequest`).
- The cache file can be trusted unless the remote file begins with ten NUL bytes and is longer:
  then the first read deletes the file and the fill position goes on counting (`SoundIff`,
  `NulsBreakSoundness`).
- As long as the file is kept, a read of the cache delivers its bytes exactly when it starts below
  2^31; above, it reports success and delivers nothing (`ReadDeliversIff`, `LateReadLost`). All
  reads below 2^31 deliver, on every run, exactly when the remote file does not begin with ten NUL
  bytes and more, or is 11 bytes long (`ReadsDeliverIff`, `NulsLoseRead`).
- Every read of a given length that the file has comes back with exactly its bytes, on every
  schedule, if and only if the length is at most one byte more than the window, and no such read can
  begin at 2^31 or, in a file that begins with ten NUL bytes, behind its eleventh
  (`ReadsArriveIff`, `LongReadStarves`, `ReadComesBackEmpty`).
- Every read of a given length returns exactly when the length is at most one byte more than the
  window the filler keeps ahead (`ReadsReturnIff`, `LongReadStarves`).
- A frame is accepted exactly when each of the four characters that reading replaces occurs an even
  number of times in its fields (`FrameReadsIff`, `OneSemicolon`), and what was sent arrives exactly
  when none of them occurs (`FrameArrivesIff`, `TwoSemicolons`) and, of messages whose fixed fields
  may be too short, no fixed field is (`ArrivesIff`). A changed content byte goes unnoticed exactly
  when a space became one of those characters (`ChangedByteIff`, `SpaceBecomesSemicolon`).
- A message prints as nothing exactly when its type has more than three digits
  (`PrintsNothingIff`).
- The main thread's first write on a connection is the signon header unless the thread is told to
  quit between two tests of the same round; then it is EOT (`FirstWriteIff`, `EotFirst`).
- An export loses an accepted local buffer exactly when the queue holds one and the output with all
  pending buffers would reach the maximal size (`LossIff`). The buffer that is lost is the first
  with which the output reaches it (`FateIff`), so a buffer of exactly the maximal size at the front
  always is (`LargestIsLost`).
- A quote on the command line that is not closed takes in the rest of the line, rightly unless that
  ends with an escaped quote (`UnclosedIff`).
- Ids increase in depth-first order, and every entry is found by its id, exactly for the starting
  ids that the two modes are meant for (`IdsIncreaseIff`, `AllFoundIff`, `HiddenDirectory`,
  `HiddenRoot`).
- A search without a limit returns everything exactly when there are no more matches than direct
  children (`ZeroCountIff`, `ZeroCountMisses`).
- A changed byte of a packet is noticed unless 0 and 255 are exchanged in a command byte
  (`SingleChangeIff`, `UnnoticedChange`); the first checksum is the byte sum modulo 255 unless its
  16-bit counter overflowed (`NormalCongruentIff`, `OverflowLosesCongruence`).

## Model

| member | source | states |
|---|---|---|
| JsonText.Utf8RoundTrip | src/dpsio/Json.cc:373-382 | a code unit encoded in one to three bytes decodes to itself; the lead byte tells the length, the others are continuation bytes (section 3 of RFC 3629) |
| JsonText.Utf8Bits | src/dpsio/Json.cc:373-382 | the shifts and masks of the code are the divisions and remainders of that encoding |
| JsonNumber.ConversionExactIff | src/dpsio/Json.cc:235-279 | the converted value is the decimal value if and only if all digits are 0 or the written exponent is below 2^32 |
| JsonNumber.ExponentWraps | src/dpsio/Json.cc:265-275 | 1e4294967296 is converted to 1, although its value is greater |
| JsonNumber.PowerOf | src/dpsio/Json.cc:269-272 | the loop of repeated squaring computes the power, for every base and exponent |
| JsonNumber.String2Double | src/dpsio/Json.cc:235-279 | the loops over sign, whole part, fraction and exponent stop behind the numeral and return its converted value |
| JsonNumeral.DecimalMeans | src/dpsio/Json.cc:255-278 | the decimal value times the power of ten that a negative exponent names is the signed mantissa; with a positive one it is the mantissa times that power |
| JsonNumeral.MantissaMeans | src/dpsio/Json.cc:238-253 | the mantissa, in units of its last decimal place, is the number that its digits spell |
| JsonNumeral.SplitWritten | src/dpsio/Json.cc:235-279 | the converter splits a numeral with any sign, digits, point, exponent mark and exponent sign into exactly the parts that were written, and stops behind it |
| JsonNumeral.NumberTokenWritten | src/dpsio/Json.cc:315-335 | any number so written is one token, with its decimal value if the exponent fits 32 bits |
| JsonNumeral.OneHundredth | src/dpsio/Json.cc:255-274 | 1e-2 is one token, of value 0.01 |
| JsonSpelling.HexQuadBack | src/dpsio/Json.cc:363-372 | four hex digits, in either case of their letters, are the code unit they spell |
| JsonSpelling.ScanSpelled | src/dpsio/Json.cc:336-401 | a string reads as the bytes it means, with each character plain, by its short escape or as a code unit |
| JsonSpelling.StringTokenSpelled | src/dpsio/Json.cc:336-401 | a string so spelled is one token; a NUL that was spelled ends its text |
| JsonSpelling.UnknownEscape | src/dpsio/Json.cc:340-387 | an escape is refused if and only if its letter is none of the eight and it is not u with four hex digits |
| JsonSpelling.Solidus | src/dpsio/Json.cc:345-349 | an escaped solidus is a solidus, as is its code unit |
| JsonGrammar.ValueRuns | src/dpsio/Json.cc:308-494 | started on a value at any stack depth, the machine delivers exactly the grammar's value and rest if the nesting and the nodes fit, and accepts nothing otherwise |
| JsonGrammar.MembersRun | src/dpsio/Json.cc:420-461 | inside a container the machine collects the members that the grammar lists, commas and colons being optional the same way |
| JsonGrammar.ParserIsGrammar | src/dpsio/Json.cc:298-496 | the iterative parser succeeds with value v and rest r if and only if the recursive grammar yields v and r with nesting at most 32 and enough nodes |
| JsonDocuments.DocRead | src/dpsio/Json.cc:298-496 | the grammar reads a value, written with any white space between its tokens and any spelling of its strings and numbers, as what it means, and stops right behind it |
| JsonDocuments.EveryTextParses | src/dpsio/Json.cc:298-496 | every text of RFC 8259, however laid out and spelled, is parsed to the value it means, up to the white space behind it, if and only if it nests at most 32 deep and its nodes can be supplied |
| JsonErrors.EndsTooEarly | src/dpsio/Json.cc:495 | an empty text and one that ends inside a container give BREAKING_BAD |
| JsonErrors.WrongClosing | src/dpsio/Json.cc:420-431 | a closing bracket gives STACK_UNDERFLOW where none is open, MISMATCH_BRACKET for the other kind |
| JsonErrors.WrongSeparator | src/dpsio/Json.cc:452-461 | a comma or colon at the start of a text or container gives UNEXPECTED_CHARACTER |
| JsonErrors.WrongKey | src/dpsio/Json.cc:427-433 | a key that is no string gives UNQUOTED_KEY, an object that ends behind a key UNEXPECTED_CHARACTER |
| JsonErrors.TooDeep | src/dpsio/Json.cc:436-446 | the thirty-third open bracket gives STACK_OVERFLOW, at any depth and whatever follows |
| JsonErrors.NoNode | src/dpsio/Json.cc:483-491 | a member without a node gives ALLOCATION_FAILURE |
| JsonErrors.WrongCharacter | src/dpsio/Json.cc:464-465 | a character that starts no token gives UNEXPECTED_CHARACTER |
| JsonErrors.WrongWord | src/dpsio/Json.cc:402-419 | a literal that is cut short gives BAD_IDENTIFIER |
| JsonErrors.WrongNumber | src/dpsio/Json.cc:315-319 | a minus without digit or point gives BAD_NUMBER |
| JsonErrors.CommaIsOptional | src/dpsio/Json.cc:457-461 | members without a comma between them, and a comma in front of the closing bracket, are let through |
| JsonErrors.ColonIsOptional | src/dpsio/Json.cc:452-456 | a key without its colon is let through |
| JsonGrammar.OnlyTrailingSpaceOverruns | src/dpsio/Json.cc:308-312 | the parser steps over the terminating NUL on no text that does not end in white space |
| JsonOverrun.OverrunsIff | src/dpsio/Json.cc:308-312 | the parser steps over the terminating NUL if and only if white space is the last token and the tokens before it run to the end without a value |
| JsonOverrun.LastIsOverrunIff | src/dpsio/Json.cc:308-401 | white space is the last token if and only if the text ends in white space that is not inside a string left open |
| JsonOverrun.OpenStringKeepsSpace | src/dpsio/Json.cc:336-401 | an unclosed string that ends in a space is rejected without stepping over the NUL, as is the text without the space |
| JsonPrint.ScanPrinted | src/dpsio/Json.cc:32-63 | scanning a printed string gives the string back if it has no character the parser rejects, and fails otherwise |
| JsonPrint.NumberTokenPrinted | src/dpsio/Json.cc:67-69 | any printed number is read back as one token, with the number rounded to a multiple of 10^-6 |
| JsonPrint.RoundedIff | src/dpsio/Json.cc:67-69 | that is the number itself if and only if it is a multiple of 10^-6 |
| JsonPrint.RoundedNearest | src/dpsio/Json.cc:67-69 | a printed number is read back within half of 10^-6, half way as the even multiple |
| JsonPrint.SplitPrinted | src/dpsio/Json.cc:235-279 | the converter splits a printed numeral into the sign, whole part and fraction that were printed |
| JsonRoundTrip.ValuePrinted | src/dpsio/Json.cc:65-114 | for any value, at any indent and whatever follows, the grammar reads the value back from its printed text with its numbers rounded, or refuses it if some string in it cannot be read |
| JsonRoundTrip.MembersPrinted | src/dpsio/Json.cc:81-103 | the same for a printed member list, in its order, keys included |
| JsonRoundTrip.RereadIff | src/dpsio/Json.cc:65-114 | a value is read back as itself if and only if its numbers are multiples of 10^-6, its strings and keys can be read, and no member of an array has a key |
| JsonRoundTrip.RoundTrip | src/dpsio/Json.cc:65-114 | parsing what the printer wrote gives the same value if and only if it is printable in that sense, nests at most 32 deep and its nodes can be supplied |
| JsonRoundTrip.ThirdIsRounded | src/dpsio/Json.cc:67-69 | a third is not read back as itself |
| JsonRoundTrip.SampleObject | src/dpsio/Json.cc:91-103 | an object with one member, character by character |
| JsonRoundTrip.SampleArray | src/dpsio/Json.cc:81-90 | an array of two at an indent of four, character by character |
| JsonHeap.InsertAfter | src/dpsio/Json.cc:281-287 | the node becomes the last of the circular list that the tail heads |
| JsonHeap.LinkNode | src/dpsio/Json.cc:483-493 | the ring with the new node denotes the members so far and the new one |
| JsonHeap.ListToValue | src/dpsio/Json.cc:289-296 | the ring is cut into a null-terminated chain that starts at the first member |
| JsonHeap.ChainDenotes | src/dpsio/Json.cc:289-296 | that chain denotes exactly the members, in source order |
| JsonUnescape.WriteUtf8 | src/dpsio/Json.cc:373-382 | the encoded bytes of a code unit are written at the write position, and no other byte changes |
| JsonUnescape.ReadEscape | src/dpsio/Json.cc:340-387 | what section 7 of RFC 8259 says the escape means is written at the write position, which stays behind the read position; an unknown escape is refused |
| JsonUnescape.ReadString | src/dpsio/Json.cc:336-401 | the bytes left at the start of the string are the unescaped text with its NUL, nothing in front of it or behind the read position changes, and failure is exactly failure of the pure scan |
| JsonParser.Parse.Push | src/dpsio/Json.cc:436-451 | an opening bracket does what the machine's step does, overflowing exactly at depth 32 |
| JsonParser.Parse.Punctuate | src/dpsio/Json.cc:452-461 | colon and comma consult the separator and the pending key as the machine does |
| JsonParser.Parse.SetKey | src/dpsio/Json.cc:476-482 | a string in key position becomes the pending key; anything else is refused |
| JsonParser.Parse.RingsApart | src/dpsio/Json.cc:420-451 | the last node of the top list occurs in no list below it and in no closed value |
| JsonParser.Parse.RingsDisjoint | src/dpsio/Json.cc:420-451 | open containers at different stack levels share no node |
| JsonParser.Parse.Append | src/dpsio/Json.cc:483-493 | the top container has the new member at its end, all other frames are as before |
| JsonParser.Parse.Attach | src/dpsio/Json.cc:476-493 | a finished value becomes a member under the pending key, or allocation fails, as in the machine |
| JsonParser.Parse.Pop | src/dpsio/Json.cc:420-435 | closing a container yields a value that denotes exactly its members, and leaves the lower frames |
| JsonParser.Parse.DeliverValue | src/dpsio/Json.cc:468-493 | a complete value ends the parse, becomes a key or becomes a member, as in the machine |
| JsonParser.Parse.CloseContainer | src/dpsio/Json.cc:420-435 | a closing bracket has the machine's errors and the machine's effect |
| JsonParser.Parse.ReadWord | src/dpsio/Json.cc:402-419 | a literal is accepted exactly when its letters and a delimiter follow |
| JsonParser.Parse.ReadNumber | src/dpsio/Json.cc:315-335 | the token is the pure number token of the text at hand |
| JsonParser.Parse.ReadStringToken | src/dpsio/Json.cc:336-401 | the token is the pure string token, and no byte in front of it changes |
| JsonParser.Parse.Turn | src/dpsio/Json.cc:308-494 | one turn of the loop consumes exactly one token, keeps every stored string and every list, and steps as the machine does |
| JsonParser.JsonParse | src/dpsio/Json.cc:298-496 | the parse over the buffer and the heap returns what the machine returns, as a heap value that denotes the machine's value, with the end pointer at the unread rest |
| JsonDump.DumpString | src/dpsio/Json.cc:32-63 | the loop over a C string writes the quoted, escaped text |
| JsonDump.DumpMembers | src/dpsio/Json.cc:82-86 | the loop over a chain writes the members with their indent and their separators |
| JsonDump.DumpValue | src/dpsio/Json.cc:65-114 | a heap value is written as the value it denotes is printed |
| JsonBox.BoxKeepsTagAndPayload | src/dpsio/Json.h:35-51 | tag and pointer put into a word come out again, and the word is no double |
| JsonBox.DoublesAreNotBoxes | src/dpsio/Json.h:32-44 | every double that is a number is read as a number and is no box |
| JsonBox.NaNReadAsBoxIff | src/dpsio/Json.h:39-44 | of the doubles that are not numbers, exactly the positive ones above the first quiet one read as boxes |
| JsonAllocator.BlockInsideIff | src/dpsio/Json.cc:181-203 | a block of the requested size lies inside its zone if and only if the size arithmetic does not wrap |
| JsonAllocator.WrappedRequest | src/dpsio/Json.cc:181-203 | the largest request gets a block that does not hold it |
| JsonAllocator.JsonAllocator.Carve | src/dpsio/Json.cc:184-188 | a block behind the last one of the head zone overlaps no earlier block |
| JsonAllocator.JsonAllocator.PushZone | src/dpsio/Json.cc:195-197 | a new zone becomes the head and stays apart from all others |
| JsonAllocator.JsonAllocator.InsertZone | src/dpsio/Json.cc:198-201 | an oversized zone goes behind the head and is never carved |
| JsonAllocator.JsonAllocator.Allocate | src/dpsio/Json.cc:181-203 | for every size the answer is the head's free space or the start of a new zone, and head and zones are as the code leaves them; unless the request wraps around, all blocks stay pairwise disjoint, aligned and inside their zones |
| JsonAllocator.JsonAllocator.Deallocate | src/dpsio/Json.cc:205-211 | every zone is freed, each once |
| Cache.SharedCache.EnterRead | src/mech/generic/upnp/ushare/src/bunny.cc:858-907 | the reader's first section is the step of the state machine |
| Cache.SharedCache.CountNuls | src/mech/generic/upnp/ushare/src/bunny.cc:1114-1119 | the loop counts ten exactly when the first ten bytes are NUL |
| Cache.SharedCache.CheckRead | src/mech/generic/upnp/ushare/src/bunny.cc:973-1141 | one pass through the reader's loop has the step's verdict, and the step's new state when data is ready |
| Cache.SharedCache.ServeRead | src/mech/generic/upnp/ushare/src/bunny.cc:1074-1141 | the part that opens and reads the file has the step's effect, with or without the mutex |
| Cache.SharedCache.OpenForFill | src/mech/generic/upnp/ushare/src/bunny.cc:255-308 | the filler's first section is the step of the state machine |
| Cache.SharedCache.PlanRequest | src/mech/generic/upnp/ushare/src/bunny.cc:331-342 | size of the next request and whether it is the last are the step's |
| Cache.SharedCache.StorePacket | src/mech/generic/upnp/ushare/src/bunny.cc:409-457 | a packet is appended to the file and counted, a failed request changes nothing |
| CacheSafety.EventKeepsSteady | src/mech/generic/upnp/ushare/src/bunny.cc:239-492 | for every remote file every step of either thread and every call keeps the synchronization invariant: positions in line, the phases of both threads paired, and whoever waits going to be woken |
| CacheSafety.EventKeepsInvariant | src/mech/generic/upnp/ushare/src/bunny.cc:239-492 | so does the invariant on the cache file, in any interleaving, for a stream that still keeps its file |
| CacheSafety.SoundIff | src/mech/generic/upnp/ushare/src/bunny.cc:858-1189 | on every reachable state the cache file is a prefix of the remote file, as long as the fill position says, and the player holds the bytes before its position, if and only if the remote file does not begin with ten NULs and more |
| CacheSafety.NulsBreakSoundness | src/mech/generic/upnp/ushare/src/bunny.cc:1112-1136 | a run on which the first read of such a file leaves a fill position without a file |
| CacheSafety.ReadDeliversIff | src/mech/generic/upnp/ushare/src/bunny.cc:1099-1141 | on every run of a stream that keeps its file a served read hands over exactly the remote bytes at its position and moves on, if and only if it starts below 2^31; past that it hands over nothing |
| CacheSafety.LateReadLost | src/mech/generic/upnp/ushare/src/bunny.cc:1099-1101 | a run on which a read at 2^31 is served and hands over nothing |
| CacheSafety.ReadsDeliverIff | src/mech/generic/upnp/ushare/src/bunny.cc:1099-1141 | all reads below 2^31 on all runs deliver, if and only if the remote file does not begin with ten NULs or is 11 bytes long |
| CacheSafety.NulsLoseRead | src/mech/generic/upnp/ushare/src/bunny.cc:1112-1136 | a run on which the second read of a file that begins with ten NULs is served and hands over nothing |
| CacheSafety.RoundPosts | src/mech/generic/upnp/ushare/src/bunny.cc:306-492 | for every remote file a filler round for an unfinished file posts the data semaphore before the filler sleeps again |
| CacheSafety.NoLostWakeup | src/mech/generic/upnp/ushare/src/bunny.cc:1017-1073 | for every remote file, whenever the reader waits for data, at either place, a semaphore is positive or the filler is in a round that will still post |
| CacheSafety.NoDeadlock | src/mech/generic/upnp/ushare/src/bunny.cc:936-1073 | for every remote file, while a read is in progress one of the two threads can make a step |
| CacheProgress.StepLowersRank | src/mech/generic/upnp/ushare/src/bunny.cc:239-492 | for every remote file every step of either thread, the server answering, lowers the rank of a read within the window |
| CacheProgress.LongReadStarves | src/mech/generic/upnp/ushare/src/bunny.cc:320-324 | a read of two bytes more than the window, and an endless run on which it never returns |
| CacheProgress.ReadsReturnIff | src/mech/generic/upnp/ushare/src/bunny.cc:973-1189 | under every scheduling with an answering server every read of len bytes inside the file returns, if and only if len is at most the window and one byte (with what, `ReadsArriveIff` says) |
| CacheDelivery.ReadsArriveIff | src/mech/generic/upnp/ushare/src/bunny.cc:936-1189 | on every run and every schedule with an answering server every read of len bytes that the file has comes back with exactly the remote bytes at its position, and the position moved on, if and only if len is at most the window and one byte and no such read can begin at 2^31, or behind byte 11 of a file that begins with ten NULs |
| CacheDelivery.ReadComesBackEmpty | src/mech/generic/upnp/ushare/src/bunny.cc:1099-1136 | a read on the far side of either limit that comes back with nothing |
| CacheDelivery.EndIff | src/mech/generic/upnp/ushare/src/bunny.cc:973-1141 | on every run the reader's test ends a read with nothing if and only if the player is at the end of the file |
| CacheDelivery.FlacWaits | src/mech/generic/upnp/ushare/src/bunny.cc:973-1016 | the first read of a flac stream is not served before the file holds ten million bytes or all there are |
| CacheDelivery.RequestsAhead | src/mech/generic/upnp/ushare/src/bunny.cc:320-342 | on every run the filler asks for whole packets or the rest, inside the file, beginning at most a window ahead of the reader and at the end of the cache file |
| IcommText.LrcConcat | src/icomm/Icomm.cc:464-470 | the check byte gathered piece by piece is that of the whole |
| IcommText.LrcChange | src/icomm/Icomm.cc:464-470 | one changed byte changes the check byte |
| IcommText.AtoiOfPrecision | src/icomm/Icomm.cc:911-935 | a length prefix reads back as the length that was printed |
| IcommMessage.Def | src/icomm/Icomm.cc:14-144 | the field table; fixed fields have 1 to 25 characters and only field 127 is very long |
| IcommMessage.DigitRoundTrip | src/icomm/Icomm.cc:744-827 | the hex digit of four bits sets exactly those bits |
| IcommMessage.FirstHalfBack | src/icomm/Icomm.cc:731-831 | reading the first half of a printed bitmap gives exactly its first 64 bits |
| IcommMessage.SecondHalfBack | src/icomm/Icomm.cc:731-831 | reading the second half on top gives the whole bitmap |
| IcommFrame.ReadFieldBack | src/icomm/Icomm.cc:224-318 | a printed field of full width is read back after replacement, with the check byte of what was stored |
| IcommFrame.ReadFieldsBack | src/icomm/Icomm.cc:606-621 | the loop over the bitmap reads exactly the fields that are present, each its own |
| IcommFrame.ReadMessageBack | src/icomm/Icomm.cc:538-622 | type, bitmap and fields are read back after replacement, and the check byte is that of the printed cleaned message |
| IcommRoundTrip.FullPrints | src/icomm/Icomm.cc:896-1036 | a message whose fixed fields have their width prints the same in every format of the stream |
| IcommRoundTrip.FramedReads | src/icomm/Icomm.cc:472-536 | a frame around such a message is read to its end; its result is 1 or -1 by the check byte alone |
| IcommReplacement.CheckKeptIff | src/dpsio/SocketIO.cc:900-904 | replacement leaves the check byte of a message alone if and only if backslash, semicolon and the two quotes each occur an even number of times over its fields |
| IcommRoundTrip.FrameReadsIff | src/baseServer/BaseServer.cc:36-71 | a sent frame is accepted if and only if those four each occur an even number of times, and refused with -1 otherwise; its fields come out after replacement |
| IcommRoundTrip.FrameArrivesIff | src/baseServer/BaseServer.cc:36-71 | a sent frame is accepted with the same type, bitmap and fields if and only if no present field holds one of the four |
| IcommRoundTrip.TwoSemicolons | src/dpsio/SocketIO.cc:900-904 | a field of two semicolons is accepted and comes out as two spaces |
| IcommRoundTrip.OneSemicolon | src/dpsio/SocketIO.cc:900-904 | a field of one semicolon makes the receiver refuse the frame |
| IcommRoundTrip.FrameRoundTrip | src/baseServer/BaseServer.cc:36-71 | a sent frame without replaced characters is read with result 1, same type, same bitmap and same fields, up to its last byte |
| IcommRoundTrip.StreamRoundTrip | src/icomm/Icomm.cc:472-536 | a stream of such frames, read one after the other into the same object, gives each message as it was sent |
| IcommRoundTrip.ChangedByteIff | src/dpsio/SocketIO.cc:900-904 | a frame with one content byte changed is accepted if and only if the byte is the same or a space became a replaced character, and then decodes to the message that was sent |
| IcommRoundTrip.SpaceBecomesSemicolon | src/dpsio/SocketIO.cc:900-904 | a frame whose one space became a semicolon on the way is accepted |
| IcommNormalForm.ParseMessageBack | src/icomm/Icomm.cc:629-694 | the string of a full message parses to a message with the same type, bitmap and fields |
| IcommNormalForm.WidenedPrints | src/icomm/Icomm.cc:896-910 | padding with the sticky fill and alignment turns every fixed field into one of full width that prints as itself |
| IcommNormalForm.WidenedPads | src/icomm/Icomm.cc:896-910 | every field is printed as it was, except that a fixed field has its width: in front of the text, or behind it in an alpha field and after one, there are zeros, or for alpha fields what the field before left as the fill |
| IcommNormalForm.NormalForm | src/icomm/Icomm.cc:896-1036 | what a message prints as parses to the same type, the same set of fields and every field so padded, and printing that again, in any format, gives the same text |
| IcommNormalForm.ArrivesIff | src/icomm/Icomm.cc:896-1036 | of the messages whose fields fit, exactly those arrive as sent whose fixed fields have their width and whose fields hold none of the four characters |
| IcommPadding.SetKeeps | src/icomm/Icomm.cc:151-173 | a text that fits becomes the field, is there when asked for, announces the second bitmap above 64, and leaves all other fields and the fit of the message as they were |
| IcommPadding.SetRefusesIff | src/icomm/Icomm.cc:151-173 | setting is refused, and changes nothing, if and only if the id is out of range or the text is empty |
| IcommPadding.FrameArrivesPadded | src/baseServer/BaseServer.cc:36-71 | any message whose fields fit is accepted as a frame if and only if the four characters each occur an even number of times, and the receiver gets its type, its bitmap and every field padded and with the four characters replaced |
| IcommPadding.PrintsNothingIff | src/icomm/Icomm.cc:974-976 | a message prints as nothing if and only if its type is above 999 |
| IcommPadding.SamplePrints | src/icomm/Icomm.cc:896-1036 | a message with six fields of all kinds, byte by byte |
| IcommFrame.LongestIs | src/icomm/Icomm.cc:14-144 | a field with a length prefix may be as long as the prefix can tell |
| IcommResults.AcceptedFrame | src/icomm/Icomm.cc:472-536 | a frame is accepted only if it starts with STX, ends with ETX and has the xor of what lies between, as counted after replacement, and ETX for its check byte |
| IcommResults.PassedOverIff | src/icomm/Icomm.cc:472-536 | result 2 is given if and only if the next byte is not STX, and only that byte is taken |
| IcommResults.WrongEnd | src/icomm/Icomm.cc:505-530 | a message followed by anything but ETX gives 0 |
| IcommResults.CutFrame | src/icomm/Icomm.cc:505-530 | a frame cut short anywhere gives 0 at the end of the stream, and -1 if nothing of it is there |
| IcommResults.ParseShort | src/icomm/Icomm.cc:629-694 | a string without a whole type throws, one without a whole bitmap gives the type and no field |
| IcommClient.SocketIO.DoRead | src/dpsio/SocketIO.cc:769-909 | short reads are put together until the length is there or the peer has closed; then, if asked, exactly the four characters are replaced |
| IcommClient.OutStream.Write | src/icomm/Icomm.cc:901-909 | a write pads once to the width with the current fill and alignment |
| IcommClient.Icomm.SetField | src/icomm/Icomm.cc:151-173 | a non-empty text is stored and its bit set, with the bit of the second bitmap when needed |
| IcommClient.Icomm.AddToLRC | src/icomm/Icomm.cc:464-470 | the loop xors the bytes into the check byte |
| IcommClient.Icomm.TakeHeader | src/icomm/Icomm.cc:731-831 | the loop over 16 digits sets the bits the specification sets, stopping at a bad digit |
| IcommClient.Icomm.ReadField | src/icomm/Icomm.cc:224-318 | message, check byte, position and result after one field are the specification's |
| IcommClient.Icomm.Read2 | src/icomm/Icomm.cc:538-622 | the same for type, bitmaps and fields, ending early where the code does |
| IcommClient.Icomm.Read | src/icomm/Icomm.cc:472-536 | result code, message and position after one frame are the specification's, for every byte stream |
| IcommClient.Icomm.Parse | src/icomm/Icomm.cc:629-694 | reading from a string gives the specification's message, or the exception of substr |
| IcommClient.Icomm.PrintField | src/icomm/Icomm.cc:896-963 | text and format of the stream after one field are the specification's |
| IcommClient.Icomm.Print | src/icomm/Icomm.cc:966-1036 | text and format of the stream after a message are the specification's |
| IcommClient.GatherCheck | src/baseServer/BaseServer.cc:48-53 | the loop over the buffer gathers the check byte of text and ETX |
| IcommClient.Send | src/baseServer/BaseServer.cc:36-71 | the buffer that is written is the frame of the message |
| Session.ControlStepSound | src/mech/Mech.cc:794-931 | every round of the control thread keeps its conversation in order, whatever the host does |
| Session.ControlSignsOnFirst | src/mech/Mech.cc:794-931 | on every run each connection of the control thread carries one signon header and nothing else until an answer was read on it; then comes the acknowledgement, and never a second header |
| SessionLaws.ControlObeys | src/mech/Mech.cc:794-931 | on every run every act on every connection of the control thread follows the acts before it: header, answer, message, then frames, an ACK or client data with data exactly behind the frame that calls for it |
| SessionLaws.ControlResponse | src/mech/Mech.cc:794-931 | on every run what is due on an open connection is written on it within two more rounds: the header on a new one, the message after the first answer, an ACK, or client data with data; if the writes fail the connection is given up with them, if they go well it stays |
| SessionLaws.ControlListens | src/mech/Mech.cc:837-880 | on every run a thread that waits for a frame takes down a whole frame, waits on without one, and gives the connection up when the read fails |
| SessionLaws.ControlEnds | src/mech/Mech.cc:794-931 | on every run a frame that leads to neither response ends the thread, and a lost connection is replaced when there is a new one |
| Session.FirstWriteIff | src/mech/Mech.cc:474-681 | on a fresh connection the main thread writes something other than the header if and only if it is told to quit after its loop test with the socket open; then it is EOT |
| Session.MainSignsOnFirst | src/mech/Mech.cc:474-681 | on every run the first thing the main thread writes on a connection is the header, or EOT on the last one; never EOT if quitting is seen by the loop test |
| SessionMainLaws.MainObeys | src/mech/Mech.cc:474-681 | on every run every act of the main thread follows those before it: headers until the signon was answered, messages afterwards, frames only behind a header or message, and behind a frame that is processed just its response |
| SessionMainLaws.MainResponse | src/mech/Mech.cc:474-681 | on every run the header, the message after the answer to it, an ACK, or client data with data is written within two more rounds of being due; failing writes end the connection, others leave it |
| SessionMainLaws.MainListens | src/mech/Mech.cc:539-603 | on every run the round after a header or message takes down a frame, waits on, goes on gathering or gives the connection up, as the read says |
| SessionMainLaws.MainGathers | src/mech/Mech.cc:529-628 | on every run something is sent within three rounds behind an ACK or data |
| SessionMainLaws.MainDecides | src/mech/Mech.cc:529-533 | on every run, when the host had nothing to say, client data is sent next, or a message when a test message is due |
| SessionMainLaws.MainEnds | src/mech/Mech.cc:474-681 | on every run a frame that leads to neither response ends the thread, and a lost connection is replaced when there is a new one |
| Session.EotFirst | src/mech/Mech.cc:474-475 | a run on which EOT comes first |
| Session.HostThread.ReconnectHost | src/mech/Mech.cc:1690-1707 | quitting keeps the connection, success starts a new conversation, failure neither |
| Session.HostThread.DoControl | src/mech/Mech.cc:794-931 | the control loop runs the machine, and all its conversations are in order |
| Session.HostThread.DoWork | src/mech/Mech.cc:474-681 | the main loop runs the machine, and all its conversations start as promised |
| LocalQueue.AddAccepts | src/mech/Mech.cc:2018-2042 | every buffer of admissible size goes to the end of the queue; the branch for a taken id is never entered |
| LocalQueue.ExportSplits | src/mech/Mech.cc:1625-1680 | an export takes the first buffers in order and appends those it sends; it loses at most one, the last it took, which would have reached the limit; the ids start over when it emptied the queue |
| LocalQueue.ExportCounts | src/mech/Mech.cc:1629-1645 | the count that is returned grows by the number of buffers sent |
| LocalQueue.Conservation | src/mech/Mech.cc:1625-1680 | over any sequence of additions and exports the accepted buffers are, in order and each once, those sent or lost followed by those pending; at most one is lost per export, and pending ids are below the next id |
| LocalQueue.LossIff | src/mech/Mech.cc:1629-1645 | an export loses a buffer if and only if the queue is not empty and the output together with all pending buffers would reach the maximal size |
| LocalQueue.FateIff | src/mech/Mech.cc:1629-1645 | each pending buffer is sent if and only if the output up to and with it stays below the maximal size, and lost if and only if it is the first with which it does not |
| LocalQueue.LargestIsLost | src/mech/Mech.cc:1629-1645 | a buffer of exactly the maximal size at the front is lost by the export that reaches it |
| LocalQueue.Outbound.AddClientData | src/mech/Mech.cc:2018-2045 | adding in place is the specification's addition and keeps the queue valid |
| LocalQueue.Outbound.ExportClientData | src/mech/Mech.cc:1625-1680 | marking, appending and copying the rest is the specification's export, output and count included |
| Tokenizer.TokensOfJoined | src/mech/generic/upnp/ushare/src/ctrl_telnet.cc:646-783 | tokenizing words that were escaped and joined with spaces gives exactly the words |
| Tokenizer.SplitQuoted | src/mech/generic/upnp/ushare/src/ctrl_telnet.cc:664-692 | an escaped word is never cut |
| Tokenizer.UnescapeQuoted | src/mech/generic/upnp/ushare/src/ctrl_telnet.cc:754-781 | removing escapes undoes escaping |
| TokenizerQuotes.TokensOfLine | src/mech/generic/upnp/ushare/src/ctrl_telnet.cc:646-783 | a line of words typed in the open or between quotes, with or without backslashes, has exactly the words that are meant: quotes keep spaces and go, backslashes go in front of special characters and stay in front of others |
| TokenizerQuotes.UnclosedIff | src/mech/generic/upnp/ushare/src/ctrl_telnet.cc:742-753 | a quote that is not closed takes in the rest of the line and goes; the word is right if and only if it does not end with an escaped quote |
| Tokenizer.CountWords | src/mech/generic/upnp/ushare/src/ctrl_telnet.cc:661-692 | the first pass counts the words of a non-empty line |
| Tokenizer.CutWords | src/mech/generic/upnp/ushare/src/ctrl_telnet.cc:697-737 | the second pass fills exactly the counted slots, NULL behind them, and leaves every word zero-terminated where its slot points |
| Tokenizer.StripInPlace | src/mech/generic/upnp/ushare/src/ctrl_telnet.cc:742-753 | the quotes around a word go, and nothing outside the word changes |
| Tokenizer.UnescapeInPlace | src/mech/generic/upnp/ushare/src/ctrl_telnet.cc:754-781 | the third pass leaves the unescaped word where it stood, and nothing outside it changes |
| Tokenizer.Tokenize | src/mech/generic/upnp/ushare/src/ctrl_telnet.cc:646-783 | a non-empty line becomes its tokens, each behind its entry, with as many entries as were counted |
| MediaTree.ScanIncreases | src/mech/generic/upnp/ushare/src/metadata.cc:469-538 | a scan gives out ids in depth-first order, each above the one before, through skipped files, ids given back and ids lost |
| MediaContents.ScanAllShows | src/mech/generic/upnp/ushare/src/metadata.cc:448-538 | a scan finds, in order and at every depth, exactly one item for each file with a valid extension, a mime type and a convertible name and one container for each directory with a convertible name, whatever the ids |
| MediaContents.BuiltShows | src/mech/generic/upnp/ushare/src/metadata.cc:560-603 | the whole tree is the root and exactly what is to be shown, and every container counts its children |
| MediaContents.InTreeIff | src/mech/generic/upnp/ushare/src/metadata.cc:448-538 | something is in the tree if and only if a path leads to it on which every directory is shown |
| MediaContents.IdsUsedIn | src/mech/generic/upnp/ushare/src/metadata.cc:199-265 | a scan uses one id for each entry and one for each name that cannot be converted |
| MediaContents.IdsConsecutive | src/mech/generic/upnp/ushare/src/metadata.cc:199-207 | ids are consecutive in depth-first order if all names can be converted |
| MediaContents.OneFile | src/mech/generic/upnp/ushare/src/metadata.cc:448-467 | a directory with one playable file |
| MediaTree.IdsIncreaseIff | src/mech/generic/upnp/ushare/src/metadata.cc:199-207 | ids increase in depth-first order for all contents if and only if an xbox starts above 0 |
| MediaTree.HiddenDirectory | src/mech/generic/upnp/ushare/src/metadata.cc:199-207 | with an xbox and starting id 0 the first directory gets the id of the root and a lookup finds the root instead |
| MediaTree.LookupSearchesIff | src/mech/generic/upnp/ushare/src/metadata.cc:410-446 | the index answers as a search of the whole tree for all contents and ids if and only if there is an xbox or the ids start at 0 |
| MediaTree.AllFoundIff | src/mech/generic/upnp/ushare/src/metadata.cc:410-446 | every entry is found by its own id for all contents if and only if the starting id is positive with an xbox and 0 without |
| MediaTree.HiddenRoot | src/mech/generic/upnp/ushare/src/metadata.cc:410-446 | without an xbox a root with another id than 0 is not found by it |
| MediaTree.SearchUnique | src/mech/generic/upnp/ushare/src/metadata.cc:410-446 | with increasing ids a search finds exactly the entry whose id it is |
| MediaIndex.Ushare.EntryNew | src/mech/generic/upnp/ushare/src/metadata.cc:169-293 | id, counter and child count of a new entry; the id is given back for an unknown mime type and lost for a name that cannot be converted |
| MediaIndex.Ushare.AddChild | src/mech/generic/upnp/ushare/src/metadata.cc:379-408 | the child array grows by the child in front of its NULL, the count by one, and the index by the child's id |
| MediaIndex.Ushare.AddContainer | src/mech/generic/upnp/ushare/src/metadata.cc:469-538 | the recursive scan leaves the directory denoting the scanned trees, counts matching arrays, every new entry in the index |
| MediaIndex.Ushare.Build | src/mech/generic/upnp/ushare/src/metadata.cc:560-603 | the whole build denotes the tree of the specification, names included, and the index holds exactly the entries below the root |
| MediaIndex.Ushare.GetEntry | src/mech/generic/upnp/ushare/src/metadata.cc:410-446 | the entry returned is the one the specification finds, or none |
| MediaSearch.FirstConcat | src/mech/generic/upnp/ushare/src/cds.cc:656-667 | filling up a limit in two portions passes on a rest that is never 0 |
| MediaSearch.FilesFiltered | src/mech/generic/upnp/ushare/src/cds.cc:641-707 | the matching files are those of all files that match, in the same order |
| MediaContents.SearchFindsShown | src/mech/generic/upnp/ushare/src/cds.cc:641-707 | the files below the root, in search order, are exactly those to be shown |
| MediaSearch.SearchBelow | src/mech/generic/upnp/ushare/src/cds.cc:641-707 | exactly the first so many matching files below the entry are added, in depth-first order, and counted |
| MediaSearch.SearchTop | src/mech/generic/upnp/ushare/src/cds.cc:709-798 | the same at the top, a limit of 0 being replaced by the number of children |
| MediaSearch.PositiveCount | src/mech/generic/upnp/ushare/src/cds.cc:734-786 | a positive limit gets the first min(limit, total) matching files |
| MediaSearch.ZeroCountIff | src/mech/generic/upnp/ushare/src/cds.cc:731-735 | a request for everything gets everything if and only if there are at most as many matches as children, or no children |
| MediaSearch.ZeroCountMisses | src/mech/generic/upnp/ushare/src/cds.cc:731-735 | one directory with two files: a request for everything gets one of them |
| Checksum.FoldIs | src/mech/labjack/u3.c:54-70 | the double fold of a 16-bit sum fits a byte and is the sum modulo 255, with 0 only for 0 |
| Checksum.StampedVerifies | src/mech/labjack/u3.c:43-51 | a stamped packet verifies, its command and data unchanged |
| Checksum.VerifiesIff | src/mech/labjack/u3.c:147-155 | the packets that verify are exactly the stamped ones |
| Checksum.SingleChangeIff | src/mech/labjack/u3.c:43-99 | a single changed byte is noticed unless 0 and 255 are exchanged in one of the three command bytes and the rest of the first sum is not 0 |
| Checksum.UnnoticedChange | src/mech/labjack/u3.c:54-70 | a verifying packet that still verifies after its byte 1 went from 0 to 255 |
| Checksum.NormalCongruentIff | src/mech/labjack/u3.c:54-70 | the sum gathered in 16 bits folds to the byte sum modulo 255 if and only if the number of overflows is a multiple of 255 |
| Checksum.OverflowLosesCongruence | src/mech/labjack/u3.c:54-70 | 258 bytes whose sum is 1 modulo 255 and folds to 0 |
| Checksum.NormalChecksum8 | src/mech/labjack/u3.c:54-70 | the loop folds the 16-bit sum of bytes 1 to n-1 |
| Checksum.ExtendedChecksum16 | src/mech/labjack/u3.c:73-82 | the loop sums bytes 6 to n-1 in 16 bits |
| Checksum.ExtendedChecksum8 | src/mech/labjack/u3.c:85-99 | the loop folds the sum of bytes 1 to 5 |
| Checksum.ExtendedChecksum | src/mech/labjack/u3.c:43-51 | the first n bytes become the stamped packet, which verifies; the bytes behind it stay |
| Checksum.CalculateChecksum8 | src/mech/labjack/dpslibLJU3.cc:288-302 | the second implementation folds the same sum |
| Checksum.CalculateChecksum16 | src/mech/labjack/dpslibLJU3.cc:305-314 | the second implementation's sum equals the first's if and only if it is below 65536, and always gives the same two bytes |
| Checksum.BuildConfigU3Bytes | src/mech/labjack/dpslibLJU3.cc:170-199 | the packet that is built is 0B F8 0A 08 and 22 zeros, and verifies for the first implementation |

## Left out

- JsonParser.JsonParse: asks that the parser does not step over the terminating NUL, for which `JsonOverrun.OverrunsIff` gives the exact condition; the end pointer of a failed parse is not modelled.
- JsonNumber.String2Double: computes over exact reals; rounding of IEEE doubles is not modelled.
- JsonAllocator.JsonAllocator.Allocate: the answers of malloc are parameters; what a zone whose size wrapped around is used for afterwards is not modelled, nor is moving an allocator.
- JsonParser.Parse.Attach: takes the number of nodes the allocator can hand out as a parameter; that blocks are disjoint is proved in `JsonAllocator`.
- CacheSafety.SoundIff: one stream, read from its start in requests of 1 to 2^31 - 1 bytes, with cache files kept; connections and local file operations succeed, and the server sends the range it was asked for or fails. File switching, seeks, the other retain modes, the pause and player commands for flac, and the limit of 32767 on semaphore values are not modelled.
- CacheSafety.NoDeadlock: after the wait at its no-data branch the reader opens and reads the file without the mutex; the model does that in one step, so a filler that writes meanwhile is not seen half way.
- CacheProgress.ReadsReturnIff: says nothing about reads beyond the end of the file, or about a server that never answers.
- IcommClient.Icomm.Read: timeouts and polling errors are not told apart from a closed stream; a negative length prefix, which the code uses as a buffer size, is treated as a failed read; the counter of bytes read is not modelled.
- IcommClient.Icomm.Parse: what `memcpy` copies from behind a short substring is not modelled; every C string ends at the NUL that `substr` puts there.
- IcommRoundTrip.FrameRoundTrip: the direction of `FrameArrivesIff` that a sender relies on; fields 2 to 126, without BCD mode. Fields 1, 127 and 128 and `clear(int)` are left out.
- Session.HostThread.DoWork: setting up connections before the loop, local client sockets, and what is read while a message is processed are parameters or left out; the unused steps GETACK and GETENQ are left out.
- LocalQueue.Conservation: the half of the export that merges records of `clientData` only appears as the output that is there already; overflow of the 32-bit record id is not modelled.
- Tokenizer.Tokenize: asks for a non-empty line; for an empty one the code writes behind its array.
- MediaIndex.Ushare.Build: the root entry is taken to be created; an entry's name is its name in its directory, and how the title is made of it, DLNA profiles, URLs, sizes and freeing are left out, and ids are unbounded integers.
- MediaIndex.Ushare.GetEntry: the branch for a bunny server, which asks another table, is left out.
- MediaSearch.SearchBelow: the predicate on search criteria and the text of the DIDL output are abstract.
- Checksum.ExtendedChecksum16: packets are short enough for the sum to fit a C int.
- TLS, sockets, signals, the database, XML parsing, host monitoring, audit and netlink records, and USB transfers are left out.
