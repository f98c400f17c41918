# DDNet verification models

A Dafny model of the algorithmic cores of the DDNet client and server, with proofs of what they
promise. Every source file that works by updating state is modelled by methods and classes that are
proved against specification functions; what the source promises is then proved about those
functions, over all inputs, all runs or all interleavings.

| files | models |
|---|---|
| `aio_ring.dfy`, `aio_machine.dfy`, `aio_runs.dfy`, `aio_finish.dfy` | the asynchronous writer: its growing ring buffer, and every interleaving of its callers with the drain thread |
| `utf8.dfy`, `utf8_order.dfy`, `utf8_truncate.dfy`, `utf8_dist.dfy`, `edit_distance.dfy` | UTF-8 encoding, decoding, checking and truncation; the two-row edit distance |
| `base64.dfy`, `base64_exact.dfy` | the base64 encoder and decoder |
| `windows_args.dfy` | the Windows command line quoter, against the documented splitting rules |
| `words.dfy`, `sha256_spec.dfy`, `sha256_rounds.dfy`, `sha256_stream.dfy`, `sha256_constants.dfy`, `sha256_bits.dfy` | incremental SHA-256 against the one-shot hash of FIPS 180-4 |
| `net_text.dfy`, `net_addr.dfy`, `net_addr_trip.dfy`, `net_grammar.dfy`, `net_forms.dfy` | the IPv4 and IPv6 address printer and parser |
| `future_logger.dfy` | the deferred logger, under any number of concurrent calls |
| `gamecore.dfy`, `gamecore_exact.dfy`, `gamecore_run.dfy`, `hook_index.dfy`, `character_core.dfy` | the hook and jump state machines of a tee, and the index of who hooks whom |
| `collision.dfy`, `collision_exact.dfy`, `tele_index.dfy`, `tilemap_skip.dfy` | the box mover, the teleporter index, the tile skip table |
| `color.dfy`, `color_channels.dfy` | the colour conversions |

How the models stand to the code:

- Concurrency is interleaving. A step of a machine is one lock, unlock, semaphore, load or output
  operation, or one critical section. The ring of the machine in `AioMachine` is the value `Ring`
  that the class `AsyncBuffer` is proved to implement, operation by operation.
- Integers are unbounded unless the width matters. Ring positions are 32-bit and shown not to wrap,
  SHA-256 words and lengths wrap where the code's do, and bytes are bytes.
- Floating-point numbers are real numbers.
- A C string is the sequence of its characters or bytes before the terminator. A cursor that
  advances through a string is the rest of that string, or an index.
- In the hook and jump models, what the map and the positions decide comes with each step and is
  arbitrary: whether the tee stands, what the hook line meets, who is near it, how far.

What the proofs found, beyond the intended properties:

- Growing the ring ends with room for the bytes exactly up to 2^31 of them, counting the place that
  stays empty. Above, the doubled size wraps to 0 and the loop does not end; from 2^32, where the
  needed size wraps as well, it ends without the room (`AioRing.GrowthOutcome`).
- Bytes accepted after the drain thread has left are never written, even when aio_wait then joins it
  (`AioRuns.WaitFlushesIff`, with the run of `AioRuns.LateBytesLost`).
- A hook that is launched and flies through a teleporter in the same tick loses the launch and jump
  events of that tick (`GameCore.EventReportedIff`, `GameCore.LaunchUnreported`).
- `Reset` clears one side of the hook index only: it keeps the index right exactly when nobody else
  hooks the core (`HookIndex.ResetKeepsIndexedIff`). A new core keeps it right exactly when nobody
  hooks its number and no set still holds that number (`HookIndex.RegisterKeepsIndexedIff`).
- A logged message overtakes queued ones exactly in the race with the replay: on the fast path, after
  Set published the logger and before it has replayed the queue (`FutureLogger.OvertakesIff`, with the
  run of `FutureLogger.FastPathOvertakes`). A call that begins after Set has returned overtakes nothing
  (`FutureLogger.AfterSetNoOvertaking`).
- Printing an address and parsing it gives the address back exactly for plain IPv6 and for plain
  IPv4 with the twelve unused bytes zero (`NetRoundTrip.RoundTripIff`); other types lose their
  flags. After a bracketed address, text behind the port is ignored (`NetForms.Accepts6Iff`).
- HSL to HSV and back loses the saturation of black and white, and nothing else (`Color.HsvTripIff`).
- `sha256_update` passes a 64-bit length to a 32-bit parameter, so it absorbs all bytes of a piece
  exactly below 2^32 of them (`Sha256Stream.Sha256State.Process`).
- The header of `str_base64_decode` gives `<= 0` for success; the code returns the length, which is
  not negative, and the model follows the code.

## Model

| member | source | states |
|---|---|---|
| AioRing.DoublingEndsIff | src/base/aio.cpp:186-193 | of all 32-bit needs, the doubling loop ends exactly for those up to 2^31 |
| AioRing.GrowthOutcome | src/base/aio.cpp:225-231 | for every queue and every 32-bit length, with the wrap of their sum: growing ends with room exactly up to 2^31 bytes, does not end from there to 2^32, and ends without room from 2^32 |
| AioRing.NextBufferSize | src/base/aio.cpp:186-193 | the loop returns the first doubling that is large enough |
| AioRing.AsyncBuffer.constructor | src/base/aio.cpp:138-160 | a new buffer is an empty ring of 8 KiB |
| AioRing.AsyncBuffer.BufferPtrs | src/base/aio.cpp:46-61 | the two stretches, one after the other, are exactly the queued bytes |
| AioRing.AsyncBuffer.BufferLen | src/base/aio.cpp:174-184 | the number of queued bytes, always below the capacity |
| AioRing.AsyncBuffer.WriteUnlocked | src/base/aio.cpp:206-254 | the queue becomes the old queue followed by the data, across wrap-around and growth |
| AioRing.AsyncBuffer.WriteInPlace | src/base/aio.cpp:212-224 | the same without growth, in one or two copies |
| AioRing.AsyncBuffer.Grow | src/base/aio.cpp:225-253 | the same into a new buffer, from position 0 |
| AioRing.AsyncBuffer.TakeChunk | src/base/aio.cpp:107-126 | the first at most 64 KiB of the queue go to the local buffer and leave the ring |
| AioRing.LiveWrite | src/base/aio.cpp:222-223 | one contiguous copy at the write position appends to the live bytes, wrapped or not |
| AioMachine.StepKeepsInv | src/base/aio.cpp:63-136 | every step of every caller and of the drain thread keeps the data, lock, life-cycle and wake-up invariants |
| AioMachine.RunKeepsInv | src/base/aio.cpp:63-136 | so they hold throughout every interleaving |
| AioRuns.NothingLost | src/base/aio.cpp:107-133 | written bytes, then bytes in the local buffer, then the ring, are all accepted bytes in lock order, at every moment of every run |
| AioRuns.FreedOnceAndLast | src/base/aio.cpp:63-76 | the struct is freed at most once, never touched afterwards, and is freed when the thread has exited and aio_free has returned |
| AioRuns.DrainLeavesClean | src/base/aio.cpp:90-100 | the thread leaves only when everything accepted was written, closing the file exactly if it was told to close it |
| AioFinish.FinishIff | src/base/aio.cpp:285-308 | in every run, the thread has been told to close the file exactly if the critical section of an aio_close lies behind, and to exit exactly if none does but that of an aio_wait |
| AioFinish.NotClosedBefore | src/base/aio.cpp:94-96 | the file is not closed while the thread is still there |
| AioFinish.FileClosedIff | src/base/aio.cpp:90-98 | once the thread has left, the file is closed exactly if an aio_close came before it left |
| AioRuns.WaitFlushesIff | src/base/aio.cpp:294-308 | after aio_wait, what had been accepted at an earlier moment is written exactly if the thread was still there then or the ring was empty |
| AioRuns.LateBytesLost | src/base/aio.cpp:294-308 | a run in which neither holds: aio_wait returns and an accepted byte is not written |
| AioRuns.RunGrows | src/base/aio.cpp:78-136 | accepted and written bytes only grow, and after the thread has left nothing more is written |
| AioRuns.NoLostWakeup | src/base/aio.cpp:195-204 | a sleeping thread with work has a signal or a call that still owes one |
| AioRuns.DrainSettles | src/base/aio.cpp:82-135 | with no call in progress the thread runs on until it sleeps or exits with everything written, exits exactly if told to finish, and then the struct is freed if aio_free was called |
| EditDistance.DistIsLeast | src/base/str.cpp:1341-1375 | the table entry is the least number of insertions, deletions and substitutions |
| EditDistance.NoShorterScript | src/base/str.cpp:1341-1375 | no edit script is shorter than the distance |
| EditDistance.ScriptExists | src/base/str.cpp:1341-1375 | a script of that length exists |
| EditDistance.DistSymmetric | src/base/str.cpp:1345-1355 | swapping the arguments does not change the result |
| EditDistance.DistTable | src/base/str.cpp:1356-1373 | the recurrence of the code fills a table whose corner is the distance |
| EditDistance.Utf32DistBuffer | src/base/str.cpp:1341-1375 | the two rolling rows compute the distance, and only the row buffer changes |
| EditDistance.FillRow | src/base/str.cpp:1361-1373 | one row is filled from the other in place |
| Utf8Dist.Utf8DistBuffer | src/base/str.cpp:1321-1339 | with the asserted buffer size the decoded strings and the rows never overlap, and the result is the distance of the decoded strings |
| Utf8Dist.ToUtf32Unchecked | src/base/str.cpp:1310-1319 | the decoded values, as many as are returned, and nothing before them changes |
| Utf8Dist.DistOf | src/base/str.cpp:1301-1308 | the allocated buffer is large enough |
| Utf8Dist.DistOfValid | src/base/str.cpp:1321-1339 | for valid strings the result is the least number of code point edits |
| Utf8.Utf8Encode | src/base/str.cpp:907-938 | writes exactly the one to four bytes of the encoding |
| Utf8.Utf8Decode | src/base/str.cpp:952-1017 | the byte loop computes the decoded value and the new cursor |
| Utf8.DecodeEncode | src/base/str.cpp:907-1017 | decoding at an encoded code point gives it back and moves past exactly its bytes |
| Utf8.DecodeSound | src/base/str.cpp:952-1017 | whatever decodes is a scalar value whose encoding is exactly the bytes read |
| Utf8.DecodeFailsIff | src/base/str.cpp:952-1017 | -1 exactly where no encoded code point starts |
| Utf8.DecodeProgress | src/base/str.cpp:940-1017 | at least one byte is consumed, and only reading the terminator moves past it |
| Utf8.Utf8Check | src/base/str.cpp:1222-1233 | accepts exactly the concatenations of encoded code points |
| Utf8.CheckIffValid | src/base/str.cpp:1222-1233 | the same for the specification function |
| Utf8.EncodeAllInjective | src/base/str.cpp:907-938 | the sequence of code points of a string is unique |
| Utf8Order.OrderIff | src/base/str.cpp:907-938 | encoded strings compare byte by byte exactly as their code points compare (section 1 of RFC 3629) |
| Utf8Order.CharsOrdered | src/base/str.cpp:907-938 | of two code points, the greater one differs first in a greater byte |
| Utf8Order.Examples | src/base/str.cpp:907-938 | the bytes of the code points in section 7 of RFC 3629, and at both ends of each length |
| Utf8Truncate.Utf8Rewind | src/base/str.cpp:1114-1123 | steps back to the last start byte before the cursor |
| Utf8Truncate.Utf8FixTruncation | src/base/str.cpp:1036-1051 | cuts off the last code point if it does not decode, and returns the new length |
| Utf8Truncate.FixedKeepsWhole | src/base/str.cpp:1036-1051 | a string of whole code points is not changed |
| Utf8Truncate.FixedDropsPart | src/base/str.cpp:1036-1051 | the part of a cut code point is dropped, and no more |
| Utf8Truncate.StrCopy | src/base/str.cpp:18-23 | the destination holds the fixed prefix, its exact length is returned, and nothing behind the buffer changes |
| Utf8Truncate.CutIsLongest | src/base/str.cpp:18-23 | of a valid string, that is the longest valid prefix that fits, for every buffer size |
| Utf8Truncate.StrAppend | src/base/str.cpp:25-40 | the destination holds the fixed prefix of both strings together, also where the first one fills the buffer already |
| Utf8Truncate.AppendIsLongest | src/base/str.cpp:25-40 | of valid strings, that is the longest valid prefix that fits, and the old string is kept where it fits |
| Base64.StrBase64 | src/base/str.cpp:688-738 | writes the encoding, or its beginning if the buffer is too small, terminated |
| Base64.EncodeAt | src/base/str.cpp:712-731 | each character of the encoding is its six bits of the data, or padding |
| Base64.EncodeLength | src/base/str.cpp:723-731 | four characters for every started group of three bytes |
| Base64.StrBase64Decode | src/base/str.cpp:765-832 | stores the decoded bytes and returns their number, or the error code of the first failing check |
| Base64.DecodeEncode | src/base/str.cpp:688-832 | decoding what was encoded gives the bytes back |
| Base64.EncodeDecode | src/base/str.cpp:688-832 | encoding what was decoded gives the text back, so accepted texts are canonical |
| Base64.DecodeAcceptsExactly | src/base/str.cpp:765-832 | exactly the encoded texts are accepted, each for its own bytes, given room for whole groups |
| Base64Exact.Alphabet | src/base/str.cpp:740-763 | the digits are those of table 1 of RFC 4648, and exactly they have a value |
| Base64Exact.FaultIs | src/base/str.cpp:773-828 | which text gets which error code: -3 by its length, -2 for too little room or a text that encodes nothing, -1 for a character outside the alphabet |
| Base64Exact.Foobar | src/base/str.cpp:688-738 | the texts of "foobar" and its beginnings in section 10 of RFC 4648 |
| WindowsArgs.ArgsToWide | src/base/windows.cpp:26-71 | the quoting loops build a command line that splits into the same arguments |
| WindowsArgs.QuoteRoundTrip | src/base/windows.cpp:26-71 | splitting the quoted list by the Windows rules gives the list back, under either rule for a quote pair, empty arguments and trailing backslashes included |
| WindowsArgs.ParseEscaped | src/base/windows.cpp:40-60 | inside quotes, what the loop wrote for an argument reads as that argument |
| WindowsArgs.ParseClosing | src/base/windows.cpp:62-67 | the doubled backslashes before the closing quote read as the backslashes and the end |
| WindowsArgs.SplitRules | src/base/windows.cpp:26-71 | the documented rules that the command line is split by: 2n and 2n + 1 backslashes before a quote, backslashes before anything else, blanks |
| Sha256Rounds.FastFormsAgree | src/base/hash_libtomcrypt.cpp:55-56 | the rewritten choice and majority are those of section 4.1.2 of FIPS 180-4, on all words |
| Sha256Rounds.LoadSchedule | src/base/hash_libtomcrypt.cpp:73-79 | the message schedule of section 6.2.2 of FIPS 180-4 |
| Sha256Rounds.Rnd | src/base/hash_libtomcrypt.cpp:81-103 | one round on the registers, with their rotation, is one round of section 6.2.2 of FIPS 180-4 |
| Sha256Rounds.ShaCompress | src/base/hash_libtomcrypt.cpp:64-108 | the state becomes the intermediate hash value after the block, with the constants of Sha256Constants |
| Sha256Constants.KIsStandard | src/base/hash_libtomcrypt.cpp:15-29 | entry i is the first 32 bits of the fraction of the cube root of the i-th prime (section 4.2.2 of FIPS 180-4) |
| Sha256Constants.H0IsStandard | src/base/hash_libtomcrypt.cpp:116-123 | and the initial state is that of the square roots of the first eight (section 5.3.3) |
| Sha256Bits.SigmaBits | src/base/hash_libtomcrypt.cpp:57-62 | each bit of the four mixing functions is the sum of the three bits that they rotate or shift there |
| Sha256Bits.ChoiceBits | src/base/hash_libtomcrypt.cpp:55-56 | bit by bit, one function chooses between two words and the other takes the majority of three |
| Sha256Bits.RoundUndone | src/base/hash_libtomcrypt.cpp:82-89 | a round can be undone, so it loses nothing |
| Sha256Bits.RegistersShift | src/base/hash_libtomcrypt.cpp:91-103 | six of the eight registers are the last three values of the other two |
| Sha256Bits.WordsAreBigEndian | src/base/hash_libtomcrypt.cpp:36-53 | words are read from and written to bytes with the highest first |
| Sha256Stream.Sha256State.Process | src/base/hash_libtomcrypt.cpp:126-156 | the absorbed message grows by the piece, whatever was buffered before |
| Sha256Stream.Sha256State.Piece | src/base/hash_libtomcrypt.cpp:131-155 | one round of the loop absorbs a block or a piece of the buffer |
| Sha256Stream.Sha256State.PadMessage | src/base/hash_libtomcrypt.cpp:165-180 | a 1 bit and exactly the zeros of section 5.1.1 of FIPS 180-4 |
| Sha256Stream.Sha256State.Done | src/base/hash_libtomcrypt.cpp:158-189 | the digest is the one-shot hash of everything absorbed |
| Sha256Stream.LengthField | src/base/hash_libtomcrypt.cpp:41-46 | the stored 64-bit length is the bit count of the message, wrapped as a 64-bit number |
| Sha256Bits.PadUndone | src/base/hash_libtomcrypt.cpp:158-189 | padding can be undone: the message, a single 1 bit, as few zeros as fill a block, and the number of bits |
| Sha256Stream.HashPieces | src/base/hash_libtomcrypt.cpp:191-206 | hashing in any pieces is hashing the whole message at once |
| NetText.NumeralReads | src/base/net.cpp:304-327 | reading a printed number gives it back, decimal and hexadecimal |
| NetText.NumeralCanonical | src/base/net.cpp:265 | printed groups have no leading zero and no capital letter |
| NetText.FourOctetsIs | src/base/net.cpp:474-488 | four numbers up to 255 with dots between are read as such |
| NetText.FourOctetsSplits | src/base/net.cpp:474-488 | and nothing else is |
| NetText.Text6Compressed | src/base/net.cpp:449-453 | a text with a compressed run reads as the eight groups it abbreviates (section 2.2 of RFC 4291) |
| NetAddress.FindRun | src/base/net.cpp:210-251 | the scan finds the leftmost longest run of two or more zero groups, or that there is none (sections 4.2.1 to 4.2.3 of RFC 5952) |
| NetAddress.Print6 | src/base/net.cpp:208-273 | the text is the bracketed groups with that run as "::", and the port, cut to the buffer |
| NetAddress.BodyGrows | src/base/net.cpp:253-267 | each round of the printing loop adds one group to that text, with the right colon |
| NetAddress.Print | src/base/net.cpp:275-302 | the dotted or the bracketed form by type, cut to the buffer |
| NetAddress.ParseInt | src/base/net.cpp:304-327 | reads all leading digits and their value, and fails exactly without any |
| NetAddress.FromStr | src/base/net.cpp:422-503 | the cursor code computes the function that CaseIgnored, Accepts4Iff and Accepts6Iff determine on all texts |
| NetRoundTrip.PrintedReads | src/base/net.cpp:208-302 | every printed text has at most 47 characters and parses to the address it stands for, with port or without |
| NetRoundTrip.FormUnique | src/base/net.cpp:208-302 | an address has only one printed text |
| NetRoundTrip.RoundTripIff | src/base/net.cpp:275-503 | printing with the port and parsing is the identity exactly for plain IPv6 and for plain IPv4 with unused bytes zero |
| NetRoundTrip.PrintThenParse | src/base/types.h:108 | the same for the methods, in a buffer of 48 characters or more |
| NetRoundTrip.Accepts4Iff | src/base/net.cpp:471-500 | exactly the dotted texts with an optional port are accepted |
| NetForms.Accepts6Iff | src/base/net.cpp:427-468 | exactly the bracketed texts of the grammar are accepted, for the bytes of their groups with the high byte first, and with the port of their tail |
| NetGrammar.Text6Iff | src/base/net.cpp:449-453 | a text between the brackets is read as eight groups exactly if it stands for them by section 2.2 of RFC 4291: one to four digits a group, one "::" for one or more zero groups, a dotted end for the last two |
| NetForms.CaseIgnored | src/base/net.cpp:422-503 | texts that differ only in the case of letters give the same address, or both none |
| NetForms.GroupZero | src/base/net.cpp:449-453 | leading zeros do not change a group |
| NetForms.MappedBytes | src/base/net.cpp:427-468 | "::ffff:" before a dotted address gives its four numbers as the last bytes, after two bytes of ones |
| NetRoundTrip.KindsAre | src/base/net.cpp:275-302 | which type bits ask for which form |
| FutureLogger.StepKeepsInv | src/base/log.cpp:502-536 | every step of Set and of any number of Log calls keeps the invariants |
| FutureLogger.RunKeepsInv | src/base/log.cpp:502-536 | so they hold throughout every interleaving |
| FutureLogger.NeverTwice | src/base/log.cpp:502-536 | no message reaches the logger twice |
| FutureLogger.ExactlyOnce | src/base/log.cpp:502-536 | once Set and a call have returned, its message reached the logger exactly once |
| FutureLogger.QueuedInOrder | src/base/log.cpp:512-515 | queued messages reach the logger in the order in which they were queued, all of them once Set has returned |
| FutureLogger.PendingStaysEmpty | src/base/log.cpp:516-517 | after Set has returned nothing is ever pending again |
| FutureLogger.StepCounts | src/base/log.cpp:520-536 | every step but the start of a new call brings the end nearer |
| FutureLogger.NeverStuck | src/base/log.cpp:504-536 | while Set or a call is unfinished some step can be taken |
| FutureLogger.OvertakesIff | src/base/log.cpp:502-536 | in every run, passing a message on overtakes a queued one exactly on the fast path while Set has published the logger and not yet replayed the queue |
| FutureLogger.AfterSetNoOvertaking | src/base/log.cpp:520-536 | a call of Log that begins after Set has returned overtakes nothing |
| FutureLogger.FastPathOvertakes | src/base/log.cpp:522-527 | a run that meets the condition: a later message comes before a queued one |
| FutureLogger.LogAlone | src/base/log.cpp:520-536 | the steps of an undisturbed call deliver or queue its message |
| FutureLogger.SetAlone | src/base/log.cpp:502-518 | the steps of an undisturbed Set deliver the whole queue |
| FutureLogger.PendingLogger.Set | src/base/log.cpp:502-518 | the logger receives the queue in order, the queue is emptied, and the fields are those of the machine after SetAlone |
| FutureLogger.PendingLogger.Log | src/base/log.cpp:520-536 | the message goes to the logger or to the queue, and the fields are those of the machine after LogAlone |
| GameCore.TickedTarget | src/game/gamecore.cpp:403-452 | after a tick in a world the hooked player exists and may be held, and the hook clock is at most 60 |
| GameCore.TickedGrabs | src/game/gamecore.cpp:189-456 | a hooked player means a grabbing hook, kept by every tick |
| GameCore.TickedHooksNearest | src/game/gamecore.cpp:345-371 | whoever gets hooked is the nearest player that could be, of equally near ones the lowest number |
| GameCore.CatchesNearest | src/game/gamecore.cpp:347-370 | the scan over all players takes one exactly if there is one, and the nearest |
| GameCore.EventReportedIff | src/game/gamecore.cpp:386-388 | launches and jumps are reported exactly unless the hook flies through a teleporter in the same tick |
| GameCore.LaunchUnreported | src/game/gamecore.cpp:386-388 | a launch that no event reports |
| GameCore.TickedClock | src/game/gamecore.cpp:260-452 | a flying hook keeps its clock, a held player advances it, and only a flying hook catches a player |
| GameCore.TickedIdle | src/game/gamecore.cpp:260-278 | the hook is idle after a tick exactly if the key was read up, or it was idle and no key was read |
| GameCoreExact.TickedFlight | src/game/gamecore.cpp:308-400 | a flying hook that catches nobody: too far it retracts, a solid tile holds it, a tile that refuses hooks sends it back, a teleporter sends it on, else it flies on, each with its events |
| GameCoreExact.TickedCatches | src/game/gamecore.cpp:345-371 | a flying hook that can catch players catches the nearest one, and holds it exactly if it may |
| GameCoreExact.TickedResting | src/game/gamecore.cpp:292-452 | a hook that does not fly, with its key down: what a player, the ground and the retraction come to |
| GameCoreExact.TickedKeyUp | src/game/gamecore.cpp:274-278 | letting the key go ends everything |
| GameCoreExact.GroundWasHit | src/game/gamecore.cpp:375-379 | in every run from Reset, a hook that grabs no player was stopped by a solid tile in the last tick in which it flew, and has held on since |
| GameCoreExact.RetractsInThree | src/game/gamecore.cpp:297-305 | a retracting hook is back after exactly three more ticks, and reports it |
| GameCoreExact.JumpsExactly | src/game/gamecore.cpp:227-287 | when a tick jumps from the ground or in the air, and which jump bits and counts it leaves |
| GameCoreExact.MovedExactly | src/game/gamecore.cpp:544-548 | what Move does to the jump bits and the count |
| GameCoreExact.TotalCounts | src/game/gamecore.cpp:227-287 | in every run from Reset, m_JumpedTotal is the number of air jumps since the tee last touched the ground |
| GameCoreExact.FreshCore | src/game/gamecore.cpp:145-161 | what the first keys after Reset do |
| GameCoreRun.RunFromReset | src/game/gamecore.cpp:145-548 | in every run of Tick, TickDeferred and Move from Reset: hooked means grabbing, m_Jumped stays in 0..3, and the hooked player exists after a tick in a world |
| GameCoreRun.LaunchesSeparated | src/game/gamecore.cpp:260-278 | between two launches the hook key was read up |
| GameCoreRun.HeldAtMost | src/game/gamecore.cpp:269-452 | a hook launched with clock h holds players for at most max(0, 60 - h) ticks |
| GameCoreRun.JumpsSeparated | src/game/gamecore.cpp:227-257 | between two jumps the jump key was read up |
| GameCoreRun.AirJumpsSeparated | src/game/gamecore.cpp:283-287 | between two air jumps the tee touched the ground, in Tick or in Move |
| HookIndex.PutKeepsIndexed | src/game/gamecore.cpp:700-722 | any change of m_HookedPlayer through SetHookedPlayer keeps: j is attached to i exactly when j hooks i |
| HookIndex.PutTwice | src/game/gamecore.cpp:345-371 | a player hooked and given up within a tick leaves no trace in the index |
| HookIndex.ResetKeepsIndexedIff | src/game/gamecore.cpp:145-158 | Reset keeps the index exactly when nobody else hooks the core |
| HookIndex.RegisterKeepsIndexedIff | src/game/server/entities/character.cpp:83-90 | a new core keeps the index exactly when its number is hooked by nobody and in no set |
| HookIndex.LeaveKeepsIndexed | src/game/server/entities/character.cpp:1029 | a core that leaves the world keeps the index right |
| HookIndex.RunKeepsIndexed | src/game/gamecore.cpp:189-722 | the index is right throughout every run of Tick, TickDeferred, Move, SetHookedPlayer, guarded Reset, guarded joining and leaving, over all cores |
| CharacterCores.WorldCore.Register | src/game/server/entities/character.cpp:90 | a core takes its number in the world |
| CharacterCores.WorldCore.Unregister | src/game/server/entities/character.cpp:1029 | a core leaves its number |
| CharacterCores.CharacterCore.SetHookedPlayer | src/game/gamecore.cpp:700-722 | the fields of this core and of its old and new target are exactly those of the specification, and no other core changes |
| CharacterCores.CharacterCore.Tick | src/game/gamecore.cpp:189-456 | the core reaches the state that GameCoreExact states case by case, and the whole world the specified one, whatever players were hooked in between |
| CharacterCores.CharacterCore.CatchPlayers | src/game/gamecore.cpp:345-371 | the loop over the players hooks the specified one |
| CharacterCores.CharacterCore.HoldPlayer | src/game/gamecore.cpp:403-452 | a held player is kept or released as specified |
| CharacterCores.CharacterCore.TickDeferred | src/game/gamecore.cpp:458-527 | called by itself, it has the specified effect on the core and leaves all others |
| CharacterCores.CharacterCore.Move | src/game/gamecore.cpp:544-548 | grounding gives the air jump back |
| CharacterCores.CharacterCore.Reset | src/game/gamecore.cpp:145-187 | the core is as new and its own set empty, and its old target knows |
| Collision.WalkFree | src/game/collision.cpp:534-590 | from a free position no sub-step ends with a corner in a solid tile |
| Collision.WalkBounds | src/game/collision.cpp:534-590 | per axis the speed never grows and the displacement is bounded by the initial speed |
| Collision.StepShort | src/game/collision.cpp:527-532 | every sub-step is shorter than 1 |
| Collision.CornerTilesNear | src/game/collision.cpp:314-321 | so a corner's tile row and column change by at most one per sub-step |
| Collision.GroundedOnGround | src/game/collision.cpp:527-585 | a sub-step that grounds the box would take it down by less than 1, where something below or at the corner ahead stops it at its height and turns it upwards |
| Collision.WalkStill | src/game/collision.cpp:536-550 | leaving the loop early changes nothing |
| Collision.MoveBox | src/game/collision.cpp:521-594 | the loop with its early exits computes the whole walk of max + 1 sub-steps, which CollisionExact determines; it ends free if it began free, no further per axis than the speed, and no faster |
| Collision.MoveBoxSafe | src/game/collision.cpp:521-594 | a move from a free position ends free, no further per axis than its speed, and no faster |
| CollisionExact.FreeIff | src/game/collision.cpp:507-519 | a box is free exactly if none of the tiles at its four corners is solid, hookable or not |
| CollisionExact.SpanExists | src/game/collision.cpp:314-321 | every coordinate is in exactly one column of 32 units, half a unit early, the outer ones reaching beyond the map |
| CollisionExact.MovesOpenWay | src/game/collision.cpp:534-593 | where every sub-step ends free, the box moves by exactly its speed and keeps it |
| CollisionExact.MovesAlong | src/game/collision.cpp:552-577 | where every sub-step is stopped in one direction only, it moves by exactly its speed in the other, and the stopped speed is turned and scaled once a sub-step |
| CollisionExact.SlideGrounds | src/game/collision.cpp:560-566 | a slide grounds the box exactly if one of its sub-steps goes down onto something with positive elasticity |
| CollisionExact.StaysAndTurns | src/game/collision.cpp:578-586 | where both directions are stopped, or neither alone, it stays and both speeds turn |
| TeleIndex.TeleMap.Init | src/game/collision.cpp:122-148 | the four maps list the centres of each kind and number in scan order |
| TeleIndex.AllPlacesExactly | src/game/collision.cpp:122-148 | every teleporter of a number is enumerated, and nothing else |
| TeleIndex.AllPlacesOnce | src/game/collision.cpp:122-148 | none of them twice |
| TeleIndex.AllPlacesOrdered | src/game/collision.cpp:1256-1299 | ins come before outs, check-outs and others, each in scan order |
| TeleIndex.CentreMiddle | src/game/collision.cpp:129-133 | the centre is in the middle of the tile |
| TeleIndex.CentreIndex | src/game/collision.cpp:831-836 | the map index at a centre is that of the tile |
| TeleIndex.EnumeratedOnce | src/game/collision.cpp:1256-1299 | each teleporter of a number is the tile at exactly one enumerated centre |
| TeleIndex.TeleMap.TeleAllGet | src/game/collision.cpp:1256-1285 | the k-th centre over ins, outs, check-outs and others, (-1, -1) beyond the last |
| TeleIndex.TeleMap.TeleAllSize | src/game/collision.cpp:1287-1299 | how many there are |
| TilemapSkip.WalkIsScan | src/game/layers.cpp:152-166 | the walk by skip counts finds what a plain scan finds, in the same order |
| TilemapSkip.InitTilemapSkip | src/game/layers.cpp:152-166 | afterwards every row can be walked from 1 exactly to the width, over empty tiles only, by counts of at most 254, and no tile index changed |
| TilemapSkip.InitRow | src/game/layers.cpp:154-165 | the same for one row, which alone changes |
| TilemapSkip.CountEmpty | src/game/layers.cpp:156-161 | the distance to the next non-empty tile, the end of the row or 255 |
| Color.HueReads | src/base/color.h:17-35 | hue and range give back every component, in every sector and on the boundaries |
| ColorChannels.HslChannels | src/base/color.h:226-267 | HSL to RGB: every channel is a trapezoid over the circle of hues, around red, green and blue, about the lightness |
| ColorChannels.HsvChannels | src/base/color.h:283-287 | HSV to RGB: the same trapezoids, topped by the value |
| ColorChannels.HslMeans | src/base/color.h:212-224 | RGB to HSL: the middle and the spread of the channels, a hue in [0, 1), and none of it for grey |
| ColorChannels.HsvMeans | src/base/color.h:289-293 | RGB to HSV: the highest channel, and the spread as a share of it |
| Color.HslRoundTrip | src/base/color.h:212-267 | RGB to HSL to RGB is the identity on [0, 1] |
| Color.HsvRoundTrip | src/base/color.h:283-293 | RGB to HSV to RGB is the identity on [0, 1] |
| Color.HsvTripIff | src/base/color.h:269-281 | HSL to HSV to HSL is the identity exactly where black and white have no saturation |
| Color.HslInRange | src/base/color.h:226-267 | HSL to RGB stays in [0, 1] |
| Color.HsvInRange | src/base/color.h:283-287 | HSV to RGB stays in [0, 1] |

## Left out

- AioRuns.NothingLost: io_write is taken to accept all its bytes; the error value that aio_error returns, a failing allocation or thread, and memory order are not modelled.
- AioRuns.FreedOnceAndLast: callers keep the interface (aio_wait at most once; aio_free once, last).
- AioRuns.DrainSettles: is about the drain thread running alone; fairness between threads is not modelled.
- Utf8Dist.Utf8DistBuffer: invalid bytes decode to -1 and are compared as such, as in the code.
- Base64.StrBase64: the digit table is written as a function of the value.
- WindowsArgs.ArgsToWide: the conversion from UTF-8 to UTF-16 is a system call; arguments are strings of characters without a terminator.
- Sha256Stream.Sha256State.Process: the state keeps the absorbed message as a ghost history beside the fields.
- NetAddress.Print: returns the text that the buffer holds; the bytes behind its terminator are not modelled.
- NetAddress.FromStr: inet_pton is the grammar of section 2.2 of RFC 4291 (leading zeros in its dotted form are the system's business), the overflow of an int while reading digits is not modelled, and neither are the fields of the address after a failure.
- FutureLogger.PendingLogger.Set: a second Set is an assertion failure in the code; that the target's own Log is atomic is assumed by the machine, and GlobalFinish and OnFilterChange are not modelled.
- CharacterCores.CharacterCore.Tick: positions, velocities, tuning values, teams and angles are inputs of each tick; m_Id and m_pWorld do not change; the flags of m_Jumped beyond its two bits are not modelled.
- HookIndex.RunKeepsIndexed: reading a core from a snapshot (Read, Quantize) is not a step.
- GameCoreRun.HeldAtMost: m_HookTick is changed by Tick only; the server also resets it for endless hooks.
- Collision.MoveBox: floating-point rounding; the threshold 0.00001 on the speed is modelled, and the speed as an integer is the one whose square is the largest below the speed's square.
- Color.HslRoundTrip: floating-point rounding.
- Parts of the same files that would only add easy members: StrToInts and IntsToStr, IntersectLine, the other string helpers, hex and integer parsing, the other address helpers.
- str_comp_filenames, find_next_power_of_two_minus_one, time_iseasterday, swap_endian and GetMapIndices: what their names or comments promise does not hold in all cases.
- Sockets, files, processes, system time, rendering, input and the network protocol.
