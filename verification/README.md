# Verified models of the network tools

This project models the algorithms inside a collection of network testing tools and proves
properties of them in Dafny. Five parts of the repository are covered.

**Intrusive queues** (`TailQueue.dfy`, `SimpleQueue.dfy`, `CircularQueue.dfy`, and
`QueueWorld.dfy` for what operations do to plain sequences). The macros of
`include/queue.h` link structures through fields of their own. A head and an entry field are one
class, `Link`, because TAILQ_LAST and TAILQ_PREV read an entry's field as if it were a head. A
pointer to a `next` cell is modelled by the link that owns the cell. Each macro is a method that
assigns the same fields in the same order. Its `modifies` clause names just the links it may
write, and a ghost sequence says what the queue holds. For each kind of queue, `Execute` and `Run`
lift this to any number of queues and any run of operations.

**ethtool** (`IndirectionTable.dfy`, `HexBitmap.dfy`, `QueueMask.dfy`, `Features.dfy`,
`FlowRule.dfy`). The builder of the receive-side-scaling table with its 32-bit arithmetic, the
hexadecimal bitmap parser, the walk from a queue mask to a dense array of records, the feature
matcher with its expansion of legacy flags, and the translation of a flow rule between two forms
whose masks mean opposite things.

**The msend/mdump test protocol** (`Wire.dfy`, `BurstSender.dfy`, `Receiver.dfy`,
`TestProtocol.dfy`, with `Numerals.dfy` for `%d`, `%x`, `atoi` and `strtol`). The two programs
are imperative, down to the buffer that mdump reuses and whose memory it never clears. Between
them is a channel that drops any datagrams but keeps the order of the others.
`TestProtocol.Session` puts the three together; the lemmas say what the printed log means for
every pattern of losses. `HexDump.dfy` has mdump's dump
and msend's payload decoder.

**The option scanner** (`OptionScanner.dfy`). `tgetopt` keeps its position in globals between
calls. Every call is proved to report the head of a declarative parse of the arguments and to
leave its tail.

**Time values** (`TimeValue.dfy`). Normalisation of `struct timeval` and the round-trip statistics
of mpong.

`Arithmetic.dfy`, `Bits.dfy` and `Sequences.dfy` hold the shared facts about division, bits of
32-bit words and sequences; `MachineIntegers.dfy` and `Wrappers.dfy` the shared types.

## What turned out not to hold

Where the code does not do what it sets out to do, the model follows the code, a lemma gives an
input, and another lemma or contract says exactly when the code is right.

- Weights for the indirection table are checked by a sum that may have wrapped, and the product
  of size and partial sum may wrap. With a true total from 1 to the table size, the table is built
  exactly when size times total is below 2^32, which holds for every table of up to 65535 slots
  (`FillWeighted`, `SmallTablesFit`); otherwise a weight past the last one is read
  (`LargeTableFails`). Rejection is right exactly when no total of 2^32 or more wraps into the
  accepted range (`RejectionExact`, `WrappedTotalAccepted`).
- mdump's (sent, received) pairs are exact if and only if no test whose `stat` arrives counts
  messages of an earlier test (`ReportsExact`). Losing a `stat` and the next `echo` together can
  print more messages received than sent (`BothLost`).
- A fixed message length can cut digits off a message number. From a length of eight, which is
  that of the heading, the number survives exactly when nothing is cut, save that an empty text
  reads as zero. At lengths one to seven mdump reads whatever the buffer held before, so every
  message of a test shows the same number, and all mismatch but perhaps the first
  (`CutNumberGarbled`, `ShortMessages`, `ShortLinesLength`). Decimal numbers are read as
  hexadecimal and right exactly below ten (`DecimalMisread`). None of this touches the
  (sent, received) pairs, which `Session` gives for every length and base.
- "off" for a feature or flag that the same ethtool command turned on before does not clear the
  request: `rx-gro on rx-gro off` asks for `rx-gro` to be on (`OffDoesNotUndoOn`). The masks hold
  the last choice in exactly the other cases (`LastChoiceRespected`).
- mpong prints a time of one second or more as seconds followed by six digits of microseconds.
  That is the number of microseconds exactly when the seconds are not negative or the
  microseconds are zero (`RttTextExact`).
- msend's payload decoder takes at most 32768 bytes, so a dump of more is not read back
  (`DumpDecodes`).

## Model

| member | source | states |
|---|---|---|
| TailQueue.Init | include/queue.h:335-338 | makes an empty queue out of any link, whatever it held |
| TailQueue.InsertHead | include/queue.h:339-347 | the element comes first; forward links, back addresses and tail address stay consistent; only the head, the element and the former first element are written |
| TailQueue.InsertTail | include/queue.h:348-353 | the element comes last, and the tail address moves to it; only the head, the element and the former last link are written |
| TailQueue.InsertAfter | include/queue.h:354-362 | the element lands right after the listed one at any position, at the end included |
| TailQueue.InsertBefore | include/queue.h:363-368 | the element lands right before the listed one, without access to the head |
| TailQueue.Remove | include/queue.h:369-376 | exactly the given element leaves the queue, from any position and without a search; its own links keep their values |
| TailQueue.Concat | include/queue.h:385-392 | the elements of the second queue follow those of the first, in order, and the second queue is empty and usable; either may have been empty |
| TailQueue.Last | include/queue.h:399-400 | reading the head's last cell as a head gives the true last element, and null exactly for an empty queue |
| TailQueue.Prev | include/queue.h:401-402 | gives the true predecessor, and null exactly for the first element |
| TailQueue.ForEachReverse | include/queue.h:381-384 | terminates and visits the elements in the reverse of their order, each once |
| TailQueue.RemoveIf | include/queue.h:369-380 | one turn of a removing traversal: the element is dropped or kept, and the cursor still finds the element that was next |
| TailQueue.ForEachRemoving | include/queue.h:369-380 | a forward traversal that removes some elements visits every original element once in order and leaves the others queued in order |
| TailQueue.FilteredMembers | include/queue.h:369-380 | what is left queued is exactly what was to be kept |
| TailQueue.FilteredAppend | include/queue.h:369-380 | it is left in its order |
| QueueWorld.EffectSafe | include/queue.h:335-392 | the pointer-free semantics of every operation keeps queues disjoint, headed and without duplicates |
| QueueWorld.RemoveUndoesInsert | include/queue.h:339-376 | removing an element right after any of the four insertions gives back every queue of the program as it was |
| TailQueue.Execute | include/queue.h:335-392 | one operation on any number of queues keeps the shape invariant of all of them, has its sequence effect on those it names and writes no link of any other |
| TailQueue.Run | include/queue.h:335-392 | any legal run of operations keeps every queue well shaped and refines the run on plain sequences |
| SimpleQueue.Init | include/queue.h:201-204 | makes an empty queue out of any link |
| SimpleQueue.InsertHead | include/queue.h:205-209 | the element comes first, and the tail address follows when the queue was empty |
| SimpleQueue.InsertTail | include/queue.h:210-214 | the element lands at the end whatever operations led to the queue |
| SimpleQueue.InsertAfter | include/queue.h:215-219 | the element lands right after the listed one, and the tail address follows when that was last |
| SimpleQueue.RemoveHead | include/queue.h:220-223 | exactly the first element leaves, and the tail address returns to the head when it was the only one |
| SimpleQueue.Remove | include/queue.h:224-235 | the search for the predecessor terminates, exactly the given element leaves, and the tail address is moved back when it was last |
| SimpleQueue.Concat | include/queue.h:240-246 | the second queue's elements follow the first's and the second queue is empty and usable |
| SimpleQueue.Execute | include/queue.h:201-246 | one operation on any number of queues keeps the shape invariant and tail address of all of them, has its sequence effect on those it names and writes no link of any other |
| SimpleQueue.Run | include/queue.h:201-246 | any legal run of operations keeps every queue well shaped and refines the run on plain sequences |
| CircularQueue.Init | include/queue.h:421-424 | makes an empty ring out of any link |
| CircularQueue.InsertAfter | include/queue.h:425-433 | the element lands right after the listed one, in both directions of the ring |
| CircularQueue.InsertBefore | include/queue.h:434-442 | the element lands right before the listed one, in both directions of the ring |
| CircularQueue.InsertHead | include/queue.h:443-451 | the element comes first, in both directions of the ring |
| CircularQueue.InsertTail | include/queue.h:452-460 | the element comes last, in both directions of the ring |
| CircularQueue.Remove | include/queue.h:461-472 | exactly the given element leaves, only its neighbours are written, and its own links keep their values |
| CircularQueue.Execute | include/queue.h:421-472 | one operation on any number of rings keeps all of them rings, has its sequence effect on the one it names and writes no link of any other |
| CircularQueue.Run | include/queue.h:421-472 | any legal run of operations keeps every ring and refines the run on plain sequences |
| CircularQueue.LoopsInverse | include/queue.h:489-496 | LOOP_NEXT and LOOP_PREV undo each other on every element and never yield the head |
| CircularQueue.LoopFromIs | include/queue.h:489-492 | m applications of LOOP_NEXT move m places around, skipping the head |
| CircularQueue.LoopVisitsEachOnce | include/queue.h:489-492 | on n elements, n applications of LOOP_NEXT return to the start, and each element is reached by exactly one smaller number of them |
| IndirectionTable.Fill | ethtool/src/ethtool.c:3904-3951 | the equal form deals queues in turn; the weighted form comes to what Filled describes; without a form the table is untouched and the size says reset or no change |
| IndirectionTable.FillWeighted | ethtool/src/ethtool.c:3913-3942 | the error exits are taken by the wrapped total alone; for a true total from 1 to the size the table is completed exactly when size times total fits 32 bits, and then queue j gets the slots from floor(size\*P(j)/total) to floor(size\*P(j+1)/total), P being the prefix sums |
| IndirectionTable.SumWeights | ethtool/src/ethtool.c:3916-3919 | the total that is checked is the true one modulo 2^32 |
| IndirectionTable.FillSlots | ethtool/src/ethtool.c:3934-3942 | the loop nest terminates; it reads past the weights only when a product or the total wraps; where they fit, every slot holds its queue |
| IndirectionTable.NextQueue | ethtool/src/ethtool.c:3936-3940 | the inner loop stops at the one queue whose range holds the slot and never passes the last weight, when the products fit |
| IndirectionTable.TakeWeight | ethtool/src/ethtool.c:3937-3939 | the 32-bit counter that starts at -1 fails exactly when the weights are used up, and the bound it leaves ends the next range |
| IndirectionTable.ThresholdMeans | ethtool/src/ethtool.c:3936 | when the products fit, the 32-bit bound is the exact end of a queue's range; when they do not, it is below the table size |
| IndirectionTable.ThresholdTooLow | ethtool/src/ethtool.c:3936 | once the largest product wraps, no prefix of the weights reaches the last slot |
| IndirectionTable.CutsTile | ethtool/src/ethtool.c:3934-3942 | the queues' ranges start at slot 0, end at the table size and never go back |
| IndirectionTable.ShareIsFair | ethtool/src/ethtool.c:3934-3942 | a queue's share is within one slot of the exact proportion; a zero weight gets nothing and a weight n at least n slots |
| IndirectionTable.TableNondecreasing | ethtool/src/ethtool.c:3934-3942 | the finished table never decreases and names only queues that have weights |
| IndirectionTable.TableCounts | ethtool/src/ethtool.c:3934-3942 | the number of slots that hold queue j is exactly the length of its range |
| IndirectionTable.SmallTablesFit | ethtool/src/ethtool.c:3936 | no product wraps for up to 65535 slots |
| IndirectionTable.RejectionExact | ethtool/src/ethtool.c:3921-3932 | rejecting by the wrapped total is right if and only if no total of 2^32 or more wraps into 1..size |
| IndirectionTable.LargeTableFails | ethtool/src/ethtool.c:3934-3942 | one weight of 65536 on 65536 slots is legal but fails |
| IndirectionTable.WrappedTotalAccepted | ethtool/src/ethtool.c:3916-3932 | a total of 2^32 + 1 is not rejected on four slots |
| HexBitmap.Parse | ethtool/src/ethtool.c:268-303 | "0x" or "0X" before at least one character is dropped and nothing else is; then it succeeds if and only if all characters left are hexadecimal digits and there are at most eight per word, and the words, as a base-2^32 number, equal the hexadecimal value; nothing beyond the words is written |
| HexBitmap.ReadDigits | ethtool/src/ethtool.c:283-303 | the loop fails at the first character that is no digit, and otherwise leaves the value of the digits in the words |
| HexBitmap.PutDigit | ethtool/src/ethtool.c:284-300 | each digit reaches its place in its word and no other word changes |
| HexBitmap.WordsNumber | ethtool/src/ethtool.c:268-303 | groups of eight digits from the right, read as words, make up the value of the whole string |
| QueueMask.Choose | ethtool/src/ethtool.c:5529-5567 | a given mask selects exactly the queues whose bits the hexadecimal value of its digits has, with or without a prefix; without a mask the first queues are selected, as many as the device has; the count is the number of selected queues; the error cases are exact |
| QueueMask.MaskOfCount | ethtool/src/ethtool.c:5541-5544 | the mask built from a count selects exactly that many first queues |
| QueueMask.CountQueues | ethtool/src/ethtool.c:5556-5564 | counts exactly the set bits |
| QueueMask.Show | ethtool/src/ethtool.c:1461-1484 | the k-th selected queue is shown with the k-th record, under its own number; the early exit drops none |
| QueueMask.Update | ethtool/src/ethtool.c:5484-5511 | every record is updated exactly once, and the queues reported as unchanged are exactly those whose record did not change |
| QueueMask.UpdateWord | ethtool/src/ethtool.c:5489-5508 | one word's queues take the next records in the order of their bits |
| QueueMask.UpdateOne | ethtool/src/ethtool.c:5490-5504 | one record is changed and the others are as they were |
| QueueMask.UnchangedAre | ethtool/src/ethtool.c:5491-5502 | a queue is reported as unchanged if and only if the update leaves its record |
| QueueMask.UnchangedSorted | ethtool/src/ethtool.c:5489-5508 | the unchanged queues are reported in increasing order |
| QueueMask.SelectedAre | ethtool/src/ethtool.c:5489-5508 | the walk by shifting meets each queue whose bit is set once, in increasing order, and no other |
| QueueMask.SelectedByNumber | ethtool/src/ethtool.c:1472-1480 | a queue is selected if and only if the mask, read as one number, has its bit |
| QueueMask.NumberBits | ethtool/src/ethtool.c:268-303 | the bits of the parsed words are those of the number that the digits stand for |
| Features.MatchName | ethtool/src/ethtool.c:1857-1881 | the loop accepts a name exactly by the declarative matching |
| Features.MatchesOneStar | ethtool/src/ethtool.c:1860-1881 | with exactly one star a name matches if and only if it is the prefix, any text and the suffix |
| Features.MatchesNoStar | ethtool/src/ethtool.c:1860-1881 | without a star only the pattern itself matches |
| Features.FindFlag | ethtool/src/ethtool.c:1853-1882 | a feature gets the least flag whose pattern matches, or -1, and only that flag's counter goes up |
| Features.FeatureDefs | ethtool/src/ethtool.c:1847-1883 | each flag's counter is the number of features that were given to it |
| Features.SetBitIs | ethtool/src/ethtool.c:206-214 | setting a feature's bit changes that feature alone |
| Features.FeatureBit | ethtool/src/ethtool.c:202-210 | feature i is bit i of the number that the feature words make up |
| Features.FindInfo | ethtool/src/ethtool.c:317-318 | the first option of the given name is taken, if there is one |
| Features.TargetOf | ethtool/src/ethtool.c:2425-2437 | a name stands for the first legacy flag of that name, else for the first feature of that name, and for nothing exactly when neither list has it |
| Features.ReadChoice | ethtool/src/ethtool.c:305-413 | one "name on" or "name off" pair is read, and anything else is refused |
| Features.Request.Mark | ethtool/src/ethtool.c:387-398 | a choice marks its own target in the masks and leaves every other target as it was |
| Features.ParseCommandLine | ethtool/src/ethtool.c:305-413 | fails on exactly the malformed command lines; otherwise the masks hold exactly the targets named and, among them, those turned on |
| Features.ChoicesExist | ethtool/src/ethtool.c:305-413 | a command line is accepted if and only if it has names that exist at its even places and "on" or "off" after each |
| Features.ChoicesAre | ethtool/src/ethtool.c:305-413 | the k-th choice is the k-th pair: its target is what the name stands for, and it is on when the value is "on" |
| Features.FollowFlag | ethtool/src/ethtool.c:2464-2483 | a feature joins the request if its flag was named and it can be changed and was not chosen itself |
| Features.FollowAll | ethtool/src/ethtool.c:2463-2484 | a named flag reaches all its features, and is reported as fixed exactly when none can be changed |
| Features.Expand | ethtool/src/ethtool.c:2452-2489 | all named flags are followed, and warnings name exactly those with no feature that can be changed |
| Features.ExpandedMeans | ethtool/src/ethtool.c:2457-2489 | the features asked for are the user's own and every changeable one of a named flag; own choices are never overridden, the others follow their flag, and requested stays within valid |
| Features.SetFeatures | ethtool/src/ethtool.c:2380-2489 | from the command-line words to the request, for a device that names its features: with distinct names, feature j is asked for exactly when its name is given, or the first flag that matches it is given and the device can change it, and is asked to be on exactly when its name is given "on", or else its flag is; warnings name exactly the given flags with nothing to change; on a device without names the flags are not followed |
| Features.ExpandedAsAsked | ethtool/src/ethtool.c:2452-2489 | what the final masks say of one feature in terms of the command line alone |
| Features.WarnedStuck | ethtool/src/ethtool.c:2453-2489 | a flag is reported exactly when the command line names it and none of its features is available and free to change |
| Features.LastChoiceRespected | ethtool/src/ethtool.c:387-398 | the mask bit that the parser leaves for a target is its last "on" or "off", if and only if that is not an "off" after an "on" |
| Features.OffDoesNotUndoOn | ethtool/src/ethtool.c:387-398 | the arguments "rx-gro on rx-gro off" are accepted, and the masks they leave have the feature requested |
| Features.OffFlagsGood | ethtool/src/ethtool.c:160-187 | the program's legacy flags have single, distinct bits |
| FlowRule.Translate | ethtool/src/ethtool.c:4320-4403 | fails exactly on rules without an n-tuple form and then writes nothing; otherwise a packet matches the n-tuple (mask bit one ignores) if and only if it matches the rule (mask bit one compares), by its header and, if bit 31 of the flow type is set, its extension; without bit 31 tag and data are ignored; ring numbers and the discard value are kept |
| FlowRule.TranslatedEquivalent | ethtool/src/ethtool.c:4347-4397 | the stored values match the same packets as the rule, for every packet and either byte order |
| FlowRule.FillRule | ethtool/src/ethtool.c:4347-4400 | the stores of a translatable rule: header, extension, action and flow type without its top bit |
| FlowRule.ExtStored | ethtool/src/ethtool.c:4370-4396 | the stored tag, data and masks as numbers: the first user data word is the upper half, and both masks are inverted |
| FlowRule.FlagTests | ethtool/src/ethtool.c:4331-4370 | the two flags of the flow type are its bits 31 and 30 |
| FlowRule.NetworkOrder | ethtool/src/ethtool.c:4371-4395 | what the byte order functions do to each byte on either kind of host |
| FlowRule.SameMatches | ethtool/src/ethtool.c:4347-4397 | a packet matches the translation (mask bit one ignores) if and only if it matches the rule (mask bit one compares), in either byte order; padding and absent extension fields are ignored |
| FlowRule.FillHeader | ethtool/src/ethtool.c:4358-4367 | the mask of every header byte is inverted and the padding of the wider union is all ones |
| FlowRule.FillExt | ethtool/src/ethtool.c:4369-4397 | the extension fields and their inverted masks are stored if the rule has them, and stay ignored if not |
| FlowRule.HeaderMatches | ethtool/src/ethtool.c:4358-4367 | both forms accept the same header bytes |
| FlowRule.TagMatches | ethtool/src/ethtool.c:4371-4374 | both forms accept the same VLAN tags after the change of byte order |
| FlowRule.EtypeMatches | ethtool/src/ethtool.c:4383-4386 | both forms accept the same EtherTypes, though the code swaps 16 bits as a 32-bit word |
| FlowRule.UserDataMatches | ethtool/src/ethtool.c:4388-4395 | both forms accept the same user data, joined from two words and inverted before the change of byte order |
| FlowRule.ActionMeans | ethtool/src/ethtool.c:4334-4352 | ring numbers keep their value and the discard value becomes the drop action |
| BurstSender.NumbersFit | mtools/msend.c:557-560 | a message text never exceeds 18 characters |
| BurstSender.SendNumber | mtools/msend.c:555-563 | a datagram is the numbered text, or its padding or cut to the fixed length |
| BurstSender.SendBurst | mtools/msend.c:554-592 | a burst carries consecutive numbers from the running count on |
| BurstSender.SendBursts | mtools/msend.c:549-595 | a test carries the numbers from 0 to bursts times burst size without gap or repeat, and so does an endless test up to its interruption |
| BurstSender.SendTest | mtools/msend.c:531-623 | a test is an echo, the numbered messages and, if asked for, a stat that carries their true number |
| BurstSender.Send | mtools/msend.c:512-627 | the whole run sends the planned tests in order, as many as the loop option says and at least one; the number of datagrams is that many times one echo, the data messages and, if asked for, one stat |
| BurstSender.PlanRound | mtools/msend.c:512-627 | each test of a run has its own datagrams in its own place |
| BurstSender.Test | mtools/msend.c:531-623 | a test is the echo, then the numbers 0, 1, 2 up to bursts times burst size, then the stat with that count |
| BurstSender.SendEndless | mtools/msend.c:531-595 | an endless test, wherever it is interrupted, has sent an echo and the numbers from 0 on |
| HexDump.Decode | mtools/msend.c:303-340 | accepts exactly the strings of an even number of at most 65536 hexadecimal digits and yields one byte per pair; each error is the first one that applies |
| HexDump.Dump | mtools/mdump.c:188-214 | prints full lines of sixteen bytes and one line for the rest |
| HexDump.PrintBytes | mtools/mdump.c:195-200 | the bytes are printed once each and in order, with their printable text on the side |
| HexDump.PrintBlanks | mtools/mdump.c:208-211 | both columns are filled up to the width of sixteen bytes |
| HexDump.DumpLine | mtools/mdump.c:194-213 | a line has its bytes in hexadecimal, blanks up to sixteen, and their printable text |
| HexDump.LineLayout | mtools/mdump.c:194-213 | a line has 66 characters: the digits of byte i at 3i, the tab at 48, the text of byte i at 49 + i, blanks where no byte is |
| HexDump.DumpLength | mtools/mdump.c:188-214 | a dump has one line for every sixteen bytes and one more, which may have no bytes |
| HexDump.DumpTexts | mtools/mdump.c:198-213 | the text column of a dump has one character for each byte in order, the byte itself if it is from 0x20 to 0x7e and a dot otherwise |
| HexDump.DumpColumn | mtools/mdump.c:188-214 | the hexadecimal column of a dump has each byte once and in order |
| HexDump.DumpDecodes | mtools/mdump.c:188-214 | the payload decoder gives back the bytes from the dump's column, if and only if there are at most 32768 |
| Receiver.Mdump.constructor | mtools/mdump.c:462-463 | counting starts at zero, over a buffer with any contents |
| Receiver.Mdump.Store | mtools/mdump.c:472-477 | a datagram overwrites the start of the buffer and the rest is what earlier ones left |
| Receiver.TextAfter | mtools/mdump.c:549-550 | the text read at the place of a number ends with the datagram, or is what the buffer held before when the datagram is shorter than the heading |
| Receiver.Mdump.EndEcho | mtools/mdump.c:510-512 | the text of the command ends before its trailing newline |
| Receiver.Mdump.TakeEcho | mtools/mdump.c:508-519 | the command is printed without a trailing newline and both counters are cleared |
| Receiver.Mdump.TakeStat | mtools/mdump.c:520-541 | the number sent and the count are printed, and the counters cleared unless the program stops |
| Receiver.Mdump.CheckNumber | mtools/mdump.c:550-556 | a mismatch is printed if and only if the number read differs from the expected one, and counting goes on from the number read |
| Receiver.Mdump.Verify | mtools/mdump.c:548-556 | the number compared is the one in the datagram, or in the text left before when the datagram is too short |
| Receiver.Mdump.TakeData | mtools/mdump.c:542-560 | a data message is counted once, after its check if verifying |
| Receiver.Mdump.Receive | mtools/mdump.c:508-560 | one turn of the loop does what Take says for every datagram: echo, stat or data, however short |
| Receiver.TakeMeans | mtools/mdump.c:508-560 | the counters and the log after any datagram: an echo longer than its name clears and is printed without its newline, a stat reports the count, and all else, however short, is counted once and checked if verifying |
| Receiver.Mdump.Listen | mtools/mdump.c:464-561 | the loop over any datagrams does what Take says of each in turn, up to the report where it is told to stop |
| Receiver.Printed | mtools/mdump.c:462-561 | what the whole receiver prints is decided by the datagrams and the memory of its buffer |
| TestProtocol.TakeIsDeliver | mtools/mdump.c:508-560 | on every datagram that msend can send, with every length and base, the byte-level receiver does what the message asks for |
| TestProtocol.TakeAllIsDeliverAll | mtools/mdump.c:464-561 | so does the loop over all that arrives |
| TestProtocol.ArrivingRun | mtools/mdump.c:464-561 | what arrives of a whole run of msend leaves the byte-level receiver in the state of the run on messages |
| TestProtocol.DataText | mtools/mdump.c:550-550 | the receiver finds the digits of a data message, those that the fixed length leaves, or the earlier text |
| TestProtocol.CountIs | mtools/mdump.c:548-559 | whatever text a message shows, it is counted once, reports nothing and leaves the number after its own expected |
| TestProtocol.NumberIs | mtools/mdump.c:548-559 | after message q, if its number can be read, q + 1 is expected, and a mismatch is printed exactly if q was not |
| TestProtocol.CountedArrived | mtools/mdump.c:548-559 | an arrival keeps the invariant of a test: messages counted, number expected and gaps printed |
| TestProtocol.DataCounted | mtools/mdump.c:542-560 | for every pattern of losses and every number expected before, the count is the number of arrivals and the mismatches are those before an arrival that was not expected: on a fresh test, the maximal runs of lost messages that an arrival follows |
| TestProtocol.TestCounted | mtools/mdump.c:508-560 | what one test counts, reports and prints, from any earlier state |
| TestProtocol.RunCounted | mtools/mdump.c:508-560 | after any run with any losses, the count, the reports, the number expected and the whole log are those of the loss pattern, with what each test took over from the ones before |
| TestProtocol.RunPrints | mtools/mdump.c:508-560 | the reports are those of the loss pattern for all options, only the first of them with the stop option |
| TestProtocol.ReportsExact | mtools/mdump.c:520-541 | every printed (sent, received) pair is exact if and only if no reported test carries messages of an earlier one |
| TestProtocol.ReportOf | mtools/mdump.c:520-541 | a test that starts with cleared counters and whose stat arrives is reported in its turn, as bursts times burst size sent and the number of its data messages that arrived |
| TestProtocol.ArrivedCounts | mtools/mdump.c:559-559 | the count of a test is the number of its data messages that arrive |
| TestProtocol.SynchronisedCarriesNothing | mtools/mdump.c:515-541 | if at every boundary the stat or the next echo arrives, nothing is carried |
| TestProtocol.LogExact | mtools/mdump.c:508-560 | the log of a synchronised run is the concatenation of the logs of its tests, each taken alone |
| TestProtocol.BothLost | mtools/mdump.c:508-541 | with one message a test and both boundary datagrams lost, "1 sent, 2 received" is printed |
| TestProtocol.GapsAddUp | mtools/mdump.c:550-555 | the gaps that are printed and the messages counted add up to the advance of the number expected |
| TestProtocol.CutNumberGarbled | mtools/mdump.c:550-555 | the receiver reads the right number if and only if no digit is cut off or nothing is left of a zero, and at lengths under the heading's only if the earlier text happens to be that number |
| TestProtocol.DecimalMisread | mtools/mdump.c:550-555 | an uncut decimal number is read right exactly below ten |
| TestProtocol.ShortMessages | mtools/mdump.c:548-559 | at lengths under the heading's the receiver's whole state after any data messages: they are counted, and every one is taken for the number in the earlier text |
| TestProtocol.ShortLinesLength | mtools/mdump.c:550-555 | such messages all print a mismatch, except the first if its text's number was expected |
| TestProtocol.StopCuts | mtools/mdump.c:535-536 | with the stop option the log is that of the run without it, up to and including the first report |
| TestProtocol.Session | mtools/mdump.c:462-561 | msend's loops, any losses and mdump's loop together, for as many tests as the loop option says: the reports are those of the loss pattern for every option, every test with cleared counters has its exact pair among the lines, and the whole log is given where numbers are neither cut off nor decimal, or are not looked at |
| Wire.CStringCut | mtools/mdump.c:510-510 | the text that a C string function reads does not depend on what follows the NUL |
| Numerals.RoundTrip | mtools/mdump.c:550-550 | a number printed in base 10 or 16 is read back, whatever follows, up to the first character that is no digit and no x |
| Numerals.ScanForms | mtools/mdump.c:550-550 | a printed number is read back after any blanks, a sign and, in base 16, "0x" |
| Numerals.DigitValueIs | mtools/mdump.c:550-550 | the digits are exactly 0 to 9 and a to f in either case, each with its value |
| Numerals.PrintRead | mtools/msend.c:557-560 | the printed digits are digits of the base and stand for the number |
| Numerals.TruncatedReadsLess | mtools/mdump.c:550-555 | a numeral that lost its last digits reads as a smaller number, except zero with nothing left |
| Numerals.DecimalAsHex | mtools/mdump.c:550-555 | decimal digits read in base 16 give the number back exactly below ten |
| OptionScanner.Scanner.constructor | omtools/tgetopt.c:46-50 | the globals start before the first argument |
| OptionScanner.KindOf | omtools/tgetopt.c:88-89 | a letter is unknown exactly when it is the colon or not in the option string |
| OptionScanner.DeclaredKind | omtools/tgetopt.c:88-108 | where a letter first stands in the option string, a colon after it asks for an argument and anything else does not |
| OptionScanner.Scanner.TakeLetter | omtools/tgetopt.c:88-126 | the next letter of a cluster is reported as the parse says and the rest is left to later calls; code, argument and position are given for each kind of letter, with the two codes for a missing argument |
| OptionScanner.Scanner.Next | omtools/tgetopt.c:59-127 | a call reports the first option still to come, leaves exactly the others, and gets ahead in arguments or in the letters of a cluster |
| OptionScanner.ScanAll | omtools/tgetopt.c:59-127 | repeated calls up to the first EOF terminate, report exactly the declarative parse with its errors and arguments, and end with the index at the first operand and within the arguments |
| OptionScanner.LettersRead | omtools/tgetopt.c:88-126 | a cluster of flags with any tail parses to its flags and then the tail's option |
| OptionScanner.WordRead | omtools/tgetopt.c:77-126 | each way to write options as words parses to those options and moves past exactly those words |
| OptionScanner.OperandsEnd | omtools/tgetopt.c:77-95 | options end at the first operand, after "--", and at a lone "-" |
| OptionScanner.ParseRendered | omtools/tgetopt.c:59-127 | any list of options that the option string declares, written as clusters, attached or separate arguments, parses back to itself, with the index at the first operand or after a word that starts with "--" |
| TimeValue.Timeval.Normalize | mtools/mpong.c:138-150 | terminates for every value, keeps the time and gives it its normal form |
| TimeValue.NormalUnique | mtools/mpong.c:138-150 | a time has only one normal form |
| TimeValue.LessIsEarlier | mtools/mpong.c:485-490 | on normal forms the comparison field by field is the comparison of times |
| TimeValue.SampleRtt | mtools/mpong.c:465-468 | a sample's time, added to its first clock reading, gives its second, and is in normal form |
| TimeValue.Statistics | mtools/mpong.c:455-493 | the loop gives the exact sum, the minimum and the maximum of the round-trip times in microseconds, and the sum lies between their multiples by the number of samples |
| TimeValue.TotalBetween | mtools/mpong.c:455-493 | a sum of n times between two bounds is between n times the bounds |
| TimeValue.RttTextExact | mtools/mpong.c:512-515 | the printed text is the number of microseconds if and only if the seconds are not negative or there are no microseconds left |
| TimeValue.SecondSign | mtools/mpong.c:476-477 | negative microseconds print a second sign in the middle of the number |

## Left out

- LIST and SLIST macros: the same technique as the queues above with fewer links, so they would only add easier members. The SIMPLEQ macros have the text of the STAILQ macros and are not repeated.
- Queue elements are identified by their links; their other data plays no part in the macros.
- Sockets, ioctls, sleeps, signals, `getaddrinfo`, usage texts, terminal output formats, and the register, SFF and QSFP printers.
- Overflow of signed C integers, which is undefined in C: clock readings are unbounded and message totals are at most INT_MAX.
- Floating-point results: loss percentage, average and standard deviation.
- The `omtools` copies of msend, mdump and mpong and the other copies of tgetopt, which have the same algorithms.
- The saturation of `strtol` and the truncation to `int` for numbers outside `int`, which msend never prints; the base prefixes of the number parser that ethtool uses for weights.
- Lengths that `sendto` refuses, so that msend stops with an error: negative ones and, over UDP, those above 65507 bytes. The model sends up to the 65536 bytes that msend allows.
- The text after "echo " is a parameter of the run.
- The dump of each datagram and the progress messages are not part of the log of a session; `HexDump.Dump` models the dump by itself.
- `strchr` also finds the NUL that ends the option string; arguments are taken without their NUL, so no letter is one.
- Messages on standard error from `tgetopt`, and `topterr`, which only guards them.
- The branch of `do_sfeatures` for devices that name no features, the reading of the device's old state (its available and fixed features are parameters) and the request to the device itself.
- The second test of the EtherType mask against the user data mask in `flow_spec_to_ntuple` (ethtool/src/ethtool.c:4381-4382), which the earlier test makes unreachable.
- TestProtocol.Session: finitely many bursts over UDP without `-P` only. With `-P` a data message carries no number and may read as a command; TCP does not keep message boundaries; an endless test has no stat and no end. The echo text has no NUL and fits a datagram, as the command line it quotes does.
- BurstSender.Send: tests with finitely many bursts, since an endless one never gets to its stat or the next test; SendEndless is about those.
- BurstSender.SendTest: likewise for one test.
- TestProtocol.DecimalMisread: says nothing of decimal numbers that a fixed length cuts off, whose remaining digits have no simple relation to the number when read as hexadecimal.
- OptionScanner.Scanner.Next: after the first EOF the position inside an undeclared "-" is not specified further, since callers stop there.
- FlowRule.ActionMeans: nothing is claimed of the wake cookie, whose conversion to a signed 32-bit number is implementation-defined in C.
- FlowRule.SameMatches: plain matching of masked bits, without the exception for fields whose value and mask are both zero (ethtool/src/ethtool-copy.h:1063-1065).
- IndirectionTable.Fill: weights are numbers already; a weight missing or not numeric is the BadArgs exit.
- QueueMask.Update: what an update does to a record is a parameter, a function that also says whether the record changed.
