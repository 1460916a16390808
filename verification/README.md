# Kismet in Dafny

A model of seven parts of Kismet in Dafny, with proofs of what they promise. `dafny verify dfyconfig.toml` checks all of it.

**CRC-32 engine** (`Gf2Words`, `Crc32Register`, `Crc32Tables`, `Crc32Slicing`, `Crc32Bytewise`, `Crc32`, `Crc32Combine`, `Crc32Polynomial`). One shift register is the definition. Every checksum routine of the file, from bitwise to slicing by sixteen, returns the same function of the buffer and the previous checksum. `crc32_combine` runs its matrix loops over arrays, and its result is the checksum of the concatenation. An independent definition, the remainder of a polynomial division as in section 8.1.1.6.2 of ITU-T V.42, is met by this checksum and by no other word. Section 8 of RFC 1952 describes the same checksum.

**Capture framework** (`Cycles`, `HopSpacing`, `HopScheduler`, `HopRuns`, `HopSettling`, `RingBuffer`, `Framing`, `FramingWire`, `FramingLoss`, `FlagParser`, `Checksum`). The channel-hop scheduler, the receive framing over its ring buffer, the parser of source definitions and the unrolled checksum.

**Alert limiter** (`AlertLimiter`, `AlertTracker`). Rate limits as a state machine, the sliding windows they guarantee, and exactly which alerts they let through.

**Natural-order comparator** (`Alphanum`, `AlphanumPrinted`). A two-mode scan against a comparison of token sequences, and how printed numbers compare.

**Sparse index and cache** (`SparseIndex`). Seek, scan and memoise against a plain scan of the file.

**Two-tier address filter** (`MacFilter`). Pending and id-keyed tables against one map.

**Base64** (`Base64`, `Base64Digits`). Encoder and decoder, that they undo each other, and that text and bytes are the same number to the bases 64 and 256 (section 4 of RFC 4648).

`Common` holds the types and the two literal alphabets that several of them share.

Code that updates state is modelled by classes, arrays and loops whose contracts name a specification function; lemmas then prove what the function means.

## Where the code does less than it says

- The comment at `kismet/capture_framework.c:681-686` promises full coverage of the channel list. Fourteen channels with spacing four pass the loop and visit seven (`SpacingWithoutCoverage`). Coverage is full exactly when spacing and list size have no common factor (`FullCoverage`). It also promises the closest spacing that is no factor; four is none of ten and is passed over (`ClosestSkipped`). What the loop finds is the first spacing that passes its own test, or one (`SettleIsLeast`).
- Failures recorded for an earlier channel list stay when a new one is assigned, and can drop channels that tune, or stop the thread (`LeftoverInRange`, `LeftoverBeyond`, `LeftoversTooMany`). They do no harm exactly when there are none, or the thread never returns to position 0: when the common factor of step, list size and 2^64 does not divide the offset (`ReassignHarmlessIff`).
- `alphanum_impl` orders strings as documented exactly when every run of digits is worth less than 2^31. Beyond that, two strings can each be less than the other (`AgreesBelow`, `LongRunsMisordered`).
- At most one frame is dispatched for each read (`OnePerRead`). No complete frame is ever left waiting exactly when no read completes two frames (`CaughtUpIff`, `SecondFrameWaits`).
- Bytes received are lost exactly when a read fills the ring buffer while the bytes consumed make full rounds of it (`LostIff`); the write then starts one buffer past its place. Streams of small frames reach it: with frames of 12 data bytes, 2047 reads of two frames and two reads of one (`MisplacedInRing`).
- A lookup finds no key up to and including the first indexed one, so lookups agree with a plain scan exactly when every usable record lies above it (`AllAgreeIff`). A header of c comment lines puts the first c modulo 50 records out of reach, with the one after them, and no others (`FirstEntry`, `HeaderLookup`).
- A burst limit of zero still lets one alert through in a window (`BurstLimitExact`), and without the registration rule on the two units it fails by any number of alerts that fit (`RegistrationRuleNeeded`); for a limit of one the rule is exactly what makes it hold (`RegistrationRuleExact`).
- An alert registered under a name with lower-case letters can be registered again (`DuplicateRefused`), because the name is stored in upper case and looked up as given.
- A filter edited after its phy registered and before the phy is announced is lost, unless the edit changes nothing (`StrandedReached`, `StrandedEdit`, `StrandedRemoval`).
- `base64::encode` shifts a `char`. Where `char` is signed the index is negative exactly when a first byte of a group is 128 or more (`SignedEncodable`).
- Checksums of parts compose exactly when both parts have four bytes, or the whole has not (`AppendsExactly`).

## Model

| member | source | states |
|---|---|---|
| Crc32.Bitwise | kismet/crc32.cc:114-137 | The bitwise routine returns the CRC of the buffer, continued from any previous checksum. |
| Crc32.MixByte | kismet/crc32.cc:121-133 | Mixing in a byte and eight branch-free steps is one byte step of the register. |
| Crc32.HalfByte | kismet/crc32.cc:141-161 | The sixteen-entry table routine returns the same CRC for every buffer and previous checksum. |
| Crc32.OneByte | kismet/crc32.cc:166-175 | The one-table routine returns the same CRC. |
| Crc32.Tail | kismet/crc32.cc:286-289 | The byte loop that ends the table routines completes a register that has absorbed any prefix. |
| Crc32.OneByteTableless | kismet/crc32.cc:180-230 | The table-less routine by multiplications returns the same CRC. |
| Crc32.OneByteTableless2 | kismet/crc32.cc:234-256 | The table-less routine by sign-extending shifts returns the same CRC. |
| Crc32.FourBytes | kismet/crc32.cc:261-292 | Slicing by four returns the same CRC for every length, tail included. |
| Crc32.EightBytes | kismet/crc32.cc:298-339 | Slicing by eight returns the same CRC for every length, tail included. |
| Crc32.FourByEightBytes | kismet/crc32.cc:343-392 | Four unrolled blocks of eight and the tail return the same CRC. |
| Crc32.SixteenBytes | kismet/crc32.cc:398-465 | Four unrolled blocks of sixteen and the tail return the same CRC. |
| Crc32Register.StepLinear | kismet/crc32.cc:126-132 | A register step is linear over GF(2). |
| Crc32Register.ZerosLinear | kismet/crc32.cc:569-576 | So are any number of zero bits, which is what lets two checksums be added. |
| Crc32Register.RunSplit | kismet/crc32.cc:572-580 | Superposition: the old register contributes as if the buffer were zero bytes, the buffer as if the register were zero. |
| Crc32Register.CrcAppend | kismet/crc32.cc:114-137 | A checksum passed as previousCrc32 is continued over more data. |
| Crc32Bytewise.BranchFreeIsStep | kismet/crc32.cc:125-132 | Masking the polynomial with minus the low bit is the conditional step. |
| Crc32Bytewise.TableStepIsByteStep | kismet/crc32.cc:171-172 | One lookup in table 0 advances the register by a byte. |
| Crc32Bytewise.HalfByteStepIsByteStep | kismet/crc32.cc:147-158 | Two lookups in the sixteen literals of the half-byte table advance the register by a byte. |
| Crc32Bytewise.CarryFree | kismet/crc32.cc:204-210 | The three multiplications are sums of shifted copies without carries, for every value the folded byte takes. |
| Crc32Bytewise.TablelessStepIsByteStep | kismet/crc32.cc:187-213 | Three multiplications and three shifts advance the register by a byte. |
| Crc32Bytewise.TablelessStep2IsByteStep | kismet/crc32.cc:241-252 | Eight masks made by sign-extending shifts advance the register by a byte. |
| Crc32Tables.LookupIsZeroBytes | kismet/crc32.cc:672-684 | Entry b of table k, built by the recurrence, is byte b followed by k zero bytes. |
| Crc32Tables.SliceIsZeroBytes | kismet/crc32.cc:276-280 | Four lookups in neighbouring tables advance a word by as many zero bytes as the slice says. |
| Crc32Tables.RunWord | kismet/crc32.cc:276-280 | Four bytes read as a little-endian word can be mixed in at once. |
| Crc32Slicing.WordThenRest | kismet/crc32.cc:318-327 | In a block the first word takes the register and each later word only its own slices. |
| Crc32Slicing.RunBlock4 | kismet/crc32.cc:276-280 | The four lookups of slicing by four are a run over the four bytes. |
| Crc32Slicing.RunBlock8 | kismet/crc32.cc:318-327 | The eight lookups of slicing by eight are a run over the eight bytes. |
| Crc32Slicing.RunBlock16 | kismet/crc32.cc:433-452 | The sixteen lookups of slicing by sixteen are a run over the sixteen bytes. |
| Crc32Combine.OneBitOperator | kismet/crc32.cc:602-605 | The matrix the code sets up applies one zero bit to every word. |
| Crc32Combine.TimesIsZeros | kismet/crc32.cc:644-653 | A matrix of thirty-two columns applies its operator to every word, not only to single bits. |
| Crc32Combine.MatrixTimes | kismet/crc32.cc:647-652 | The loop over the bits of a word is the matrix product. |
| Crc32Combine.SquareColumn | kismet/crc32.cc:609-616 | A column times its own matrix is the column for twice the zero bits. |
| Crc32Combine.MatrixSquare | kismet/crc32.cc:607-642 | Squaring in place doubles the number of zero bits of the operator. |
| Crc32Combine.LengthTurn | kismet/crc32.cc:632-653 | One bit of the length: the zero bytes still owed are halved as the operator doubles. |
| Crc32Combine.AppendZeros | kismet/crc32.cc:628-657 | Swapping the two matrices through all bits of the length appends exactly that many zero bytes. |
| Crc32Combine.Combine | kismet/crc32.cc:563-661 | The result is the first register moved by the second length plus the second checksum, and the first checksum for length 0. |
| Crc32Combine.CombineContinues | kismet/crc32.cc:562-563 | Combining any checksum with that of B continues it over B: the two complements cancel. |
| Crc32Combine.CombineConcatenates | kismet/crc32.cc:562-563 | From the checksums of A and of B and the length of B comes the checksum of A followed by B, for all A and B. |
| Crc32Polynomial.RegisterGenerator | kismet/crc32.cc:75 | The constant is the generator of ITU-T V.42 without its top term, in reflected bit order. |
| Crc32Polynomial.Division | kismet/crc32.cc:114-137 | Clocking in a message is long division: dividend equals quotient times generator plus register. |
| Crc32Polynomial.RemainderUnique | kismet/crc32.cc:114-137 | A dividend has one remainder of 32 bits. |
| Crc32Polynomial.RegisterIsRemainder | kismet/crc32.cc:114-137 | A word is the remainder of the preset, shifted message exactly when it is the register after the message. |
| Crc32Polynomial.CrcIsFrameCheck | kismet/crc32.cc:114-137 | A word meets the frame check definition of section 8.1.1.6.2 of ITU-T V.42 exactly when it is the checksum computed from 0. |
| HopSpacing.Settle | kismet/capture_framework.c:691-697 | The spacing loop ends, never divides by zero, and gives 1 or a spacing no smaller than asked that is at most half the list and no divisor of it. |
| HopSpacing.SettleIsLeast | kismet/capture_framework.c:681-697 | The result is the least spacing from the requested one on that passes the test of the loop, or 1 if none does. |
| HopSpacing.ClosestSkipped | kismet/capture_framework.c:681-697 | In a list of ten, spacing four is no factor and yet passed over. |
| HopSpacing.PrimeListsCovered | kismet/capture_framework.c:680-698 | Lists of prime length get a spacing that covers them. |
| HopSpacing.SettleSpacing | kismet/capture_framework.c:691-697 | The loop, run on any list and spacing within it, stops at the spacing specified. |
| HopSpacing.AssignedIsChosen | kismet/capture_framework.c:680-698 | The spacing kept by an assignment to shuffle is the least one that passes the test of the loop, from the requested one on, or from 1 if that exceeds the list; or it is 1 when none does. |
| HopSpacing.TwelveByFour | kismet/capture_framework.c:688-697 | For twelve channels and spacing four that is 1, and four is not. |
| HopSpacing.ChosenCoversPrime | kismet/capture_framework.c:680-698 | A spacing so chosen has no common factor with a list of prime length. |
| HopSpacing.SpacingWithoutCoverage | kismet/capture_framework.c:681-697 | Fourteen channels at spacing four stay at four and never reach position 1. |
| HopSpacing.SpacingCovers | kismet/capture_framework.c:680-698 | From any offset, the settled spacing visits the whole list exactly when it has no common factor with the size. |
| HopRuns.HopsTo | kismet/capture_framework.c:1451-1527 | While no list has changed and the 64-bit counter has not wrapped, turn k of the thread tunes position (offset + k * step) mod size, whatever the callback returned. |
| HopRuns.HopsVisitClass | kismet/capture_framework.c:1490-1533 | In any size/gcd turns in a row the thread tunes exactly the positions congruent to the offset modulo the gcd of step and size, each once. |
| HopRuns.PrimeAssignmentTunesAll | kismet/capture_framework.c:648-700 | After a prime number of channels is assigned to shuffle, every one of them is tuned within as many turns. |
| HopRuns.NeverPrunes | kismet/capture_framework.c:1532-1619 | If that gcd does not divide the offset, no run short of the wrap changes the lists, whatever fails. |
| HopRuns.PrunesWithinPeriod | kismet/capture_framework.c:1532-1619 | If it does, a recorded failure is pruned, or the thread stops, within one period. |
| Cycles.FullCoverage | kismet/capture_framework.c:681-686 | All positions are visited exactly when the gcd is 1. |
| HopScheduler.CaptureHandler.AssignHopChannels | kismet/capture_framework.c:648-700 | Assignment replaces the lists, stores the chosen spacing when it is to shuffle and the requested one otherwise, starts at the offset and keeps recorded failures; negative spacings and offsets count from 2^32 and 2^64. |
| HopScheduler.CaptureHandler.ErrSeen | kismet/capture_framework.c:1505-1511 | The walk over the failure list decides membership. |
| HopScheduler.CaptureHandler.RecordFailure | kismet/capture_framework.c:1500-1521 | A failed tune is recorded once, at the position hopped to. |
| HopScheduler.CaptureHandler.HopTurn | kismet/capture_framework.c:1490-1619 | One locked section is one turn of the state machine, for any failure list; where the invariant holds it is kept and the branch for more errors than channels is not taken. |
| HopScheduler.CaptureHandler.PruneFailed | kismet/capture_framework.c:1563-1618 | For any failure list shorter than the channel list, both copying loops keep the channels not recorded, in order and parallel, up to the size of the new lists, and clear the failures. |
| HopScheduler.KeepEnough | kismet/capture_framework.c:1565-1593 | There are always enough channels to fill the new lists, so no slot is left unset. |
| HopScheduler.TurnKeepsInv | kismet/capture_framework.c:1500-1619 | A turn keeps failures distinct and in range and lists parallel and nonempty; a changed list means a prune at position 0 that made it shorter by the failures. |
| HopScheduler.RunKeepsInv | kismet/capture_framework.c:1456-1622 | From a state with distinct failures in range every run keeps them so and never reaches the branch for more errors than channels. |
| HopScheduler.FirstNegativeEnds | kismet/capture_framework.c:1490-1502 | The thread ends with the first turn whose callback returns a negative value, and changes nothing more. |
| HopScheduler.EndedByCallback | kismet/capture_framework.c:1490-1502 | If it ended for its callback, one of the turns had such a value. |
| HopScheduler.KeepLength | kismet/capture_framework.c:1565-1570 | Distinct failures in range leave exactly size minus failures channels, the size of the new arrays. |
| HopScheduler.KeepSelects | kismet/capture_framework.c:1570-1593 | What a prune leaves is the order-preserving selection of the positions without failure. |
| HopScheduler.RunSelects | kismet/capture_framework.c:1456-1622 | After any run, whatever failures it starts with, both lists are the same nonempty, order-preserving selection of the assigned ones. |
| HopScheduler.RunKeepsGood | kismet/capture_framework.c:1500-1619 | No run ever loses a channel that tunes, provided failures at the start are of channels that do not. |
| HopSettling.SegmentEnds | kismet/capture_framework.c:1500-1619 | From any offset and step, the first return to position 0 prunes exactly the channels that were visited on the way and fail to tune. |
| HopSettling.OnePassSettles | kismet/capture_framework.c:1500-1619 | From position 0 with a step prime to the size, one pass leaves exactly the channels that tune, or stops if none does. |
| HopSettling.StepOneSettles | kismet/capture_framework.c:1523-1619 | Without shuffling the same is reached from any offset, within n(n + 1) turns for n channels. |
| HopRuns.LeftoversHarmlessIff | kismet/capture_framework.c:1500-1619 | Runs in which every tuning succeeds lose no channel and do not stop exactly when no failure is recorded at their start, or position 0 is never returned to, 64-bit wrap included. |
| HopRuns.ReturnsIff | kismet/capture_framework.c:1523-1533 | Position 0 is returned to exactly when the common factor of step, size and 2^64 divides the offset. |
| HopRuns.ReassignHarmlessIff | kismet/capture_framework.c:648-703 | After an assignment, failures kept from the old list are harmless exactly when there are none or that factor does not divide the offset. |
| HopRuns.LeftoverInRange | kismet/capture_framework.c:648-703 | A kept failure of position 0 drops the first channel of the new list, which tunes. |
| HopRuns.LeftoverBeyond | kismet/capture_framework.c:1570-1593 | A kept failure beyond the new list makes the copy stop early and drop its last channel. |
| HopRuns.LeftoversTooMany | kismet/capture_framework.c:1550-1561 | More kept failures than the new list has channels take the branch for internal errors. |
| RingBuffer.SimpleRingbuf.Write | kismet/simple_ringbuf_c.c:166-204 | Data is appended whole or refused for lack of room, and the start stays; only data that fills the buffer exactly with the start one past the end is copied elsewhere. |
| RingBuffer.SimpleRingbuf.Read | kismet/simple_ringbuf_c.c:354-404 | The front of the queue, as much as asked or there is, is returned and dropped, wrapped or not, and the start advances by as much, to one past the end but not beyond. |
| RingBuffer.StartAdvances | kismet/simple_ringbuf_c.c:376-398 | The start is 0 while nothing was read and otherwise one more than the bytes read less one, modulo the size. |
| RingBuffer.StartAtEnd | kismet/simple_ringbuf_c.c:376-398 | It is one past the end exactly after full rounds. |
| RingBuffer.SimpleRingbuf.Peek | kismet/simple_ringbuf_c.c:450-506 | The same bytes are shown without dropping them, and nothing while an earlier peek is not freed. |
| RingBuffer.SimpleRingbuf.constructor | kismet/simple_ringbuf_c.c:50-121 | A new buffer is an empty queue of the given size that starts at 0. |
| RingBuffer.SimpleRingbuf.PeekFree | kismet/simple_ringbuf_c.c:508-518 | Freeing allows the next peek and leaves the queue. |
| Framing.Receiver.HandleRingData | kismet/capture_framework.c:2166-2275 | A call waits, refuses, answers or dispatches and consumes as specified by the bytes queued, with the peek left as specified and the start advanced by what it consumed. |
| Framing.Receiver.TakeFrame | kismet/capture_framework.c:2239-2275 | The part after the version checks: size limit, waiting, second peek, content checks, consumption. |
| Framing.Receiver.ReadChunk | kismet/capture_framework.c:2894-2947 | One round of the read loop is one turn of the run: the bytes are queued and one call is made, or they are lost where the ring buffer misplaces them. |
| Framing.Receiver.ReadLoop | kismet/capture_framework.c:2893-2949 | The loop is a run of turns, and ends early exactly when bytes are lost. |
| Framing.Receiver.ReceiveStream | kismet/capture_framework.c:2893-2949 | For any stream of frames and any reads within slot and room: all reads are kept exactly when none fills the buffer after full rounds of consumption, and then the frames dispatched are the first ones sent, in order, and every byte is consumed or queued. |
| Framing.LostIff | kismet/simple_ringbuf_c.c:170-200 | A run loses bytes exactly when one of its reads fills the buffer while the bytes consumed are a multiple of its size and not none. |
| Framing.LostAt | kismet/capture_framework.c:2933-2940 | Up to that read the run is one without loss. |
| FramingLoss.MisplacedReached | kismet/simple_ringbuf_c.c:188-200 | Any frame whose size goes q times into the buffer, q at least 2, has a stream that loses bytes: q - 1 reads of two frames, then two of one. |
| FramingLoss.MisplacedRoomy | kismet/capture_framework.c:2894-2909 | None of those reads asks for more than its slot of 1024 bytes and the room there is. |
| FramingLoss.MisplacedInRing | kismet/capture_framework.h:86 | So the receiver's own buffer is reached by frames of 12 data bytes. |
| Framing.HeaderReads | kismet/kis_external_packet.h:88-113 | Signature, sentinel and length are read back from any bytes that agree with an encoded frame. |
| FramingWire.EncodeIsWire | kismet/kis_external_packet.h:33-113 | Every encoded frame is the bytes DE CA FB AD A9 A9, then version, length, type, code and sequence number, each high byte first, then the data. |
| FramingWire.HandleBytes | kismet/capture_framework.c:2188-2275 | From the first twelve bytes in the queue and its length follows what a call does: a whole frame behind those six bytes that is shorter than the buffer is dispatched with the fields spelt out; version 2 is answered or refused; anything else is refused. |
| FramingWire.WrappedLength | kismet/capture_framework.c:2239-2264 | A length that wraps the 32-bit frame size is never dispatched, and leaves the peek held when it wraps to 0. |
| FramingWire.WordRoundTrip | kismet/kis_external_packet.h:88-113 | Four bytes, high one first, give back every 32-bit field. |
| FramingWire.ContentBytes | kismet/capture_framework.c:2097-2163 | A whole frame behind those six bytes passes the content checks whatever its version and code. |
| Framing.ContentReads | kismet/capture_framework.c:2097-2163 | A whole encoded frame passes every check and gives back its type, sequence number and data. |
| Framing.FrontFrame | kismet/capture_framework.c:2166-2275 | With a frame at the front: wait for the header, refuse a frame not shorter than the ring buffer, wait for the rest, or dispatch it and consume just its bytes. |
| Framing.TurnInOrder | kismet/capture_framework.c:2933-2947 | A read that is not misplaced keeps the order and loses no byte; it dispatches or fails exactly when the next frame is complete or does not fit. |
| Framing.RunInOrder | kismet/capture_framework.c:2893-2949 | However a stream of frames is cut into reads, as long as none is misplaced, the frames dispatched are the first ones sent, in order; consumed bytes followed by queued bytes are the bytes received; nothing fails if all frames fit. |
| Framing.CompleteIs | kismet/capture_framework.c:2249-2252 | The count of complete frames used below is the greatest number of frames within the bytes received. |
| Framing.OnePerRead | kismet/capture_framework.c:2933-2947 | In a run that loses nothing, of the frames left over and those a read completes, it dispatches one if there is any. |
| Framing.CaughtUpIff | kismet/capture_framework.c:2893-2949 | In a run that loses nothing, no complete frame is left after any read exactly when no read completes two. |
| Framing.SecondFrameWaits | kismet/capture_framework.c:2893-2949 | A first read that brings any two frames dispatches the first one only. |
| Framing.NeverFull | kismet/capture_framework.c:2894-2906 | In a run that loses nothing, after every read there is room for another, so the loop does not stop for want of it. |
| Framing.LocksIff | kismet/capture_framework.c:2188-2264 | Which headers end a call with the peek still held: bad signature, bad version, or a size that wraps to 0. |
| Framing.LockedForever | kismet/capture_framework.c:2188-2192 | From then on no read dispatches, consumes or reports anything. |
| FlagParser.StrStr | kismet/capture_framework.c:141-214 | The search for one character finds its first position or none. |
| FlagParser.ParseInterface | kismet/capture_framework.c:138-153 | The interface is the text before the first colon, or all of it. |
| FlagParser.ReadValue | kismet/capture_framework.c:181-207 | The value behind a matching flag is cut out as specified, malformed text included. |
| FlagParser.UnquotedAt | kismet/capture_framework.c:181-220 | At a printed unquoted flag that is the whole value, and skipping it leads to the next flag or the end. |
| FlagParser.QuotedAt | kismet/capture_framework.c:193-240 | At a printed quoted flag it is the text between the quotes, commas included, and skipping it leads past its commas. |
| FlagParser.SkipFlag | kismet/capture_framework.c:210-240 | A flag that does not match is skipped, past commas inside its quotes, and the scan advances. |
| FlagParser.Find | kismet/capture_framework.c:155-245 | The loop ends and gives the specified result for every text, malformed ones included. |
| FlagParser.FlagAt | kismet/capture_framework.c:169-241 | At a printed flag the scan stops with its value if the key matches and goes on to the next flag if not. |
| FlagParser.FlagsFrom | kismet/capture_framework.c:169-241 | From any printed list of flags it gives the value of the first key equal but for case, or none. |
| FlagParser.PrintedIsFound | kismet/capture_framework.c:138-245 | Printing any interface and flags and parsing the text returns the interface and the value of the first matching key, or 0. |
| FlagParser.PrintedIsFoundExactly | kismet/capture_framework.c:155-245 | Where no letter is a capital, the value found is that of the first flag with exactly this key, and none is found if there is none. |
| FlagParser.CaseIsIgnored | kismet/capture_framework.c:179-180 | Changing the case of letters of the flag asked for changes the result in no text. |
| FlagParser.KeyCaseIsIgnored | kismet/capture_framework.c:179-180 | Changing it in the keys changes no result either. |
| FlagParser.SameFoldIs | kismet/capture_framework.c:179-180 | Two keys match exactly if they have the same length and each two characters are equal or the two forms of one letter, by literal alphabets. |
| FlagParser.WrittenOut | kismet/capture_framework.c:138-245 | In `wlan0:type=x,name="y,z"` the name is `y,z` and there is no size. |
| FlagParser.NoColon | kismet/capture_framework.c:145-165 | Without a colon the whole text is the interface and every flag is absent. |
| Checksum.AppendCsum | kismet/capture_framework.c:68-132 | Four bytes at a time in 32-bit arithmetic with four tail cases is the bytewise recurrence modulo 2^16. |
| Checksum.CsumIs | kismet/capture_framework.c:68-132 | Modulo 2^16 the low half is the old one plus all bytes; the high half is the old one, plus the old low half once for each byte, plus each byte as often as there are bytes from it on; less than four bytes give 0. |
| Checksum.AddBlock | kismet/capture_framework.c:79-89 | The block formula is four steps of the recurrence. |
| Checksum.AddTail | kismet/capture_framework.c:91-129 | Each tail case adds the last one to four bytes. |
| Checksum.WideWraps | kismet/capture_framework.c:79-131 | Wrapping only at the end agrees with wrapping at every byte. |
| Checksum.LongAppends | kismet/capture_framework.c:68-132 | The checksum of A with that of B appended is the checksum of A followed by B, when both have four bytes. |
| Checksum.AppendsExactly | kismet/capture_framework.c:76-77 | For given lengths this holds of all contents exactly then, or when the whole is shorter than four bytes. |
| AlertTracker.AlertDefinition.CheckTimes | kismet/alertracker.cc:284-315 | The answer and the new counters are those of the limiter. |
| AlertTracker.AlertDefinition.Ask | kismet/alertracker.cc:317-328 | A question refreshes the counters and sends nothing. |
| AlertTracker.AlertDefinition.Raise | kismet/alertracker.cc:351-380 | A raise checks, counts and stamps in one step, and adds itself to what was sent if allowed. |
| AlertTracker.AlertRegistry.RegisterAlert | kismet/alertracker.cc:223-271 | Refusals change nothing; otherwise a new reference maps to a fresh definition with the given limits and zero counters. |
| AlertTracker.AlertRegistry.PotentialAlert | kismet/alertracker.cc:317-328 | Asking answers by the limiter, touches only that definition, and 0 for unknown references. |
| AlertTracker.AlertRegistry.RaiseAlert | kismet/alertracker.cc:330-426 | Raising returns 1, 0 or -1 by the limiter and touches only that definition. |
| AlertTracker.RegistryKeepsWindows | kismet/alertracker.cc:223-426 | Whatever registrations, questions and raises a registry has seen, while the clock does not go back, what each alert has sent keeps both window limits. |
| AlertTracker.RegistryRaiseIff | kismet/alertracker.cc:284-380 | An alert of a registry is let through exactly if it is not squelched and the limit unit was quiet, or fewer than limit_burst alerts were sent since the last quiet burst unit and fewer than limit_rate since the last quiet limit unit. |
| AlertTracker.UpperIs | kismet/alertracker.cc:254 | A stored name differs from the given one in the case of letters only, by literal alphabets. |
| AlertTracker.DuplicateRefused | kismet/alertracker.cc:230-265 | A second registration under the same name is refused exactly when the name is in upper case. |
| AlertLimiter.RunKeepsInv | kismet/alertracker.cc:284-380 | Over any run under a clock that does not go back, both counters cover every alert still inside their windows. |
| AlertLimiter.SpacedWindow | kismet/alertracker.cc:294-313 | Alerts of which the next but cap is always later than a window never exceed cap in one. |
| AlertLimiter.WindowLimits | kismet/alertracker.cc:284-380 | In any run every closed window of the limit unit holds at most limit_rate alerts, every one of the burst unit at most limit_burst, or one. |
| AlertLimiter.BurstLimitExact | kismet/alertracker.cc:309-311 | The burst limit itself holds in all runs exactly when it is at least 1 or the alert is squelched. |
| AlertLimiter.RegistrationRuleNeeded | kismet/alertracker.cc:241-247 | Whatever the burst limit, if the burst unit has room for k alerts one second more than a limit unit apart, some run sends k + 1 in one window of it. |
| AlertLimiter.RegistrationRuleExact | kismet/alertracker.cc:241-247 | For a burst limit of 1 the limit holds in all runs exactly when the rule does. |
| AlertLimiter.QuietAllows | kismet/alertracker.cc:292-299 | After a quiet limit unit the next alert is allowed, also one that was never sent, so limits do not lock up. |
| AlertLimiter.CountersAreCounts | kismet/alertracker.cc:292-315 | In any run a check finds in its counters how many alerts were sent since the last quiet burst unit and since the last quiet limit unit. |
| AlertLimiter.AllowedIff | kismet/alertracker.cc:284-315 | At any time after any run an alert is let through exactly under the condition of `RegistryRaiseIff`, in terms of what was sent. |
| AlertLimiter.LogIsSends | kismet/alertracker.cc:351-380 | The log holds the raises that were let through, all of them and in order. |
| AlertLimiter.FirstRaisesSent | kismet/alertracker.cc:309-313 | While fewer alerts were sent than both limits allow, every raise is sent. |
| AlertLimiter.RateUsedUpWaits | kismet/alertracker.cc:292-299 | With the rate used up the next alert waits for more than 1, 60, 3600 or 86400 seconds, by its unit. |
| AlertLimiter.BurstUsedUpWaits | kismet/alertracker.cc:301-313 | With the burst used up it waits for more than those of the burst unit. |
| AlertLimiter.AskingIsFree | kismet/alertracker.cc:284-328 | Any number of questions anywhere in a run changes neither which raises succeed nor the counts they see. |
| Alphanum.ReadNumber | kismet/alphanum.hpp:139-153 | The digit loop reads the whole run and its value in 64-bit arithmetic. |
| Alphanum.AlphanumImpl | kismet/alphanum.hpp:95-171 | The scan with its two modes returns the specified machine result for every two strings. |
| Alphanum.MachineValueWraps | kismet/alphanum.hpp:141-145 | The accumulated number is the value of the run modulo 2^64. |
| Alphanum.ScanAgrees | kismet/alphanum.hpp:95-171 | With runs below 2^31 the sign of the result is the comparison of token sequences: end before number before character, runs as numbers. |
| Alphanum.AgreesBelow | kismet/alphanum.hpp:143-161 | A bound on the runs guarantees that agreement exactly when it is at most 2^31. |
| Alphanum.LongRunsMisordered | kismet/alphanum.hpp:159-161 | 0 and 2147483648 each compare less than the other. |
| Alphanum.CompareReflexive | kismet/alphanum.hpp:81-94 | The reference comparison is 0 only for equal token sequences. |
| Alphanum.CompareAntisymmetric | kismet/alphanum.hpp:81-94 | The reference comparison changes sign with its arguments. |
| Alphanum.CompareTransitive | kismet/alphanum.hpp:81-94 | The reference comparison is transitive, strictly if one step is strict. |
| Alphanum.LessIsCompare | kismet/alphanum.hpp:307-313 | The set order is the reference order and its ties are equal token sequences. |
| Alphanum.LessIsStrictWeakOrder | kismet/alphanum.hpp:307-313 | The set order is irreflexive, transitive and its ties are transitive. |
| Alphanum.LessAsymmetricBelow | kismet/alphanum.hpp:307-313 | A bound on the runs makes it asymmetric exactly when it is at most 2^31. |
| AlphanumPrinted.DigitsAre | kismet/alphanum.hpp:74-77 | The digits are the ten characters of 0123456789 and no others. |
| AlphanumPrinted.DecimalIsNumber | kismet/alphanum.hpp:139-153 | Every number printed to the base 10 is one token with its value. |
| AlphanumPrinted.CommonPrefix | kismet/alphanum.hpp:95-171 | What two strings share counts for nothing, unless it ends within a number. |
| AlphanumPrinted.PrintedNumbers | kismet/alphanum.hpp:95-171 | Behind it, printed numbers below 2^31 compare as numbers, whatever follows them, and equal ones leave it to what follows. |
| AlphanumPrinted.KindsInOrder | kismet/alphanum.hpp:125-170 | Behind it, the end comes first, then digits, then other characters by their codes. |
| SparseIndex.LineIndex.Icao | kismet/adsb_icao.cc:101-159 | The indexing loop builds the specified index, or gives the file up at a bad line that was due. |
| SparseIndex.LineIndex.Bluetooth | kismet/bluetooth_ids.cc:42-124 | The Bluetooth loop builds its index and the cache starts with the configured entries. |
| SparseIndex.LineIndex.Seek | kismet/adsb_icao.cc:176-183 | The loop stops at the first entry that is not below the key. |
| SparseIndex.LineIndex.ScanFrom | kismet/adsb_icao.cc:195-247 | The loop from any line answers by the first listed line at or above the key, skips what it should, and a bad line ends an aircraft lookup only. |
| SparseIndex.LineIndex.Lookup | kismet/adsb_icao.cc:161-248 | In any file, with cold or warm cache, the answer is the configured entry, else the located one, and no lookup changes what another will answer. |
| SparseIndex.LineIndex.LookupAll | kismet/bluetooth_ids.cc:126-198 | Any sequence of lookups answers each key as it would have been answered at the start; configured entries are never displaced. |
| SparseIndex.ScanIsFirstMatch | kismet/adsb_icao.cc:195-244 | In a sorted file without bad lines, giving up at a greater key loses nothing. |
| SparseIndex.LocatedIsFirstMatch | kismet/adsb_icao.cc:176-244 | There, and with any usable index, seeking and scanning is a plain scan of the whole file for keys above the first indexed one, and nothing for the others. |
| SparseIndex.AllAgreeIff | kismet/adsb_icao.cc:176-188 | All lookups agree with the plain scan exactly when every usable record lies above the first indexed key. |
| SparseIndex.IndexUsable | kismet/adsb_icao.cc:116-155 | Wherever comments stand and whichever lines the counter picks, each entry lies at or before a line with its key. |
| SparseIndex.IcaoEntries | kismet/adsb_icao.cc:116-155 | A file that is not given up has one entry for each record at which the counter, records less comments, is a multiple of 50, with its key and the place behind the record before, and no others. |
| SparseIndex.FirstEntry | kismet/adsb_icao.cc:120-155 | After c comment lines the first entry is there, and is that of record c modulo 50. |
| SparseIndex.HeaderLookup | kismet/adsb_icao.cc:116-188 | So in a sorted file every key above it is found as by a plain scan, and no other is found. |
| SparseIndex.FewRecords | kismet/adsb_icao.cc:116-188 | With no more records than c modulo 50 no key is ever found. |
| SparseIndex.HeaderAnswers | kismet/adsb_icao.cc:101-248 | The same of what the object that indexed the file answers. |
| SparseIndex.BtFirstEntry | kismet/bluetooth_ids.cc:98-120 | The first line of a Bluetooth list, if it parses, is the first entry, whatever follows. |
| SparseIndex.BtEntries | kismet/bluetooth_ids.cc:98-120 | If all lines parse, the entries are those of every fiftieth line, with its own position. |
| SparseIndex.BtAnswers | kismet/bluetooth_ids.cc:42-198 | In a sorted list, keys above that of the first line are answered as by a plain scan, but for those configured; no others are found. |
| SparseIndex.IndexOpens | kismet/adsb_icao.cc:125-133 | A file without bad lines is never given up. |
| SparseIndex.BadLine | kismet/adsb_icao.cc:195-247 | A line with the wrong number of fields ends an aircraft lookup that reaches it, and a Bluetooth lookup goes on behind it. |
| MacFilter.ClassFilterMacAddr.SetFilter | kismet/class_filter.cc:152-188 | Setting updates the block and the table of a known phy, or the pending one, and nothing else. |
| MacFilter.ClassFilterMacAddr.RemoveFilter | kismet/class_filter.cc:190-229 | Removing erases from the same two places. |
| MacFilter.ClassFilterMacAddr.UpdatePhyMap | kismet/class_filter.cc:231-259 | An announced phy takes over the table pending under its name. |
| MacFilter.ClassFilterMacAddr.FilterMac | kismet/class_filter.cc:335-349 | Filtering looks in the table of the id, with the default otherwise. |
| MacFilter.NextKeepsInv | kismet/class_filter.cc:152-259 | Every step keeps the tables equal to one map by phy name and address. |
| MacFilter.RunKeepsInv | kismet/class_filter.cc:152-259 | So does every run in which filters are not edited while their phy is registered and not announced. |
| MacFilter.FilterRefines | kismet/class_filter.cc:152-349 | In such runs filtering by id is a lookup in the one map, with the default for the rest, and the exported block always is that map. |
| MacFilter.StrandedReached | kismet/class_filter.cc:177-188 | Setting a filter and registering its phy reaches that gap. |
| MacFilter.StrandedEdit | kismet/class_filter.cc:186-258 | Whatever else happens until the announcement, an edit in the gap survives it exactly when it sets what was set already. |
| MacFilter.StrandedRemoval | kismet/class_filter.cc:220-258 | A removal in the gap survives exactly when nothing was set. |
| Base64.EncodeOne | kismet/base64.cc:76-94 | One turn of the loop writes the four characters of a group of one to three bytes. |
| Base64.EncodeText | kismet/base64.cc:72-97 | The loop gives the encoding of all bytes, or leaves the alphabet where a signed char makes the index negative. |
| Base64.SignedEncodable | kismet/base64.cc:77 | With unsigned char always, with signed char exactly when every third byte from the first on is below 128. |
| Base64.Convert | kismet/base64.cc:40-66 | One to four cells give one byte fewer, whatever the unused cells hold. |
| Base64.DecodeText | kismet/base64.cc:27-70 | The loop stops at the first character outside the alphabet and decodes all before it. |
| Base64.GroupRoundTrip | kismet/base64.cc:27-97 | A group of one to three bytes comes back, and its padding is where decoding stops. |
| Base64.StrippedRoundTrip | kismet/base64.cc:27-97 | The encoding without its padding holds alphabet characters only and decodes to the bytes. |
| Base64.RoundTrip | kismet/base64.cc:27-97 | Decoding what was encoded gives it back for every byte string, with padding, without it, or with anything behind that does not go on in the alphabet. |
| Base64Digits.LetterIs | kismet/base64.cc:25 | The digits are the capitals, the small letters, the ten decimal digits, plus and slash, in this order. |
| Base64Digits.AcceptedIs | kismet/base64.h:33-37 | Decoding accepts exactly these characters, each with its own value. |
| Base64Digits.TextIsNumber | kismet/base64.cc:72-97 | For any bytes, the characters before the padding are such digits, and the number they make is the one the bytes make, times 1, 16 or 4: the bits that fill up the last character are zeros. |
| Base64Digits.TextIsPadded | kismet/base64.cc:72-97 | The rest are as many equals signs as make the length a multiple of four. |
| Base64Digits.DecodedIsNumber | kismet/base64.cc:27-70 | For any text, the digits it starts with make the number of the decoded bytes, but for the bits that fill no byte. |
| Base64Digits.WrittenOut | kismet/base64.cc:72-97 | The letter M is encoded as TQ==. |

## Left out

- CRC-32: big-endian branches, the prefetching variant, `crc32_fast`, which only selects one of the modelled routines, and alignment of word reads. The 16 tables are the recurrence the file gives, not its 4096 literals.
- `crc32_combine`: lengths are unbounded, so the 64 bits of `size_t` are not modelled.
- Hop thread: rates, sleeping, thread launch and messages. The result of each tuning callback is a parameter. Lists have from one to 2^31 - 1 channels. `cf_handler_set_hop_shuffle_spacing` is not part of the model.
- Ring buffer: the doubly mapped variant, reserve and commit, plain peek, byte search, and allocation of the copy that a wrapped peek makes.
- RingBuffer.SimpleRingbuf.Write: does not model the memory that a copy outside the buffer touches, only that the queue is left as it was.
- Framing.Receiver.ReadLoop: does not model reads after bytes are lost, when the queue holds what the misplaced copy left.
- Framing: sockets and select; what a dispatched message does, and its return value; spindown, after which the code still reads. Whether a version 2 header says PING is a parameter, because the code compares bytes that need not have arrived. A frame sent holds fewer than 2^32 bytes with its header.
- Source definitions: `cf_count_flag`, `cf_split_list` and `json_sanitize_string`. Text ends at its length, so a zero byte inside is an ordinary character. A quote that is never closed is its own result, since the code computes with a null address there.
- Checksum: unaligned words and the big-endian order of their bytes.
- Alerts: a raise is one step, although the code drops its lock between check and count. Times are reals, not doubles, and the windows suppose a clock that does not go back. Backlog, events, GPS, Prelude and HTTP are not modelled.
- Comparator: the locale branch and the wrappers for other types.
- Sparse index: files are sequences of parsed lines, positions are line numbers, and gzip reading is not modelled. The order check of the ICAO index never fires, since its last key is not updated, so the theorems about plain scans suppose a sorted file. Fields that are no numbers are left out. Bluetooth lines of exactly five characters, whose name length wraps, and a last line without an end are left out.
- MacFilter.RunKeepsInv: leaves out runs that edit a filter between registration and announcement of its phy; `StrandedEdit` and `StrandedRemoval` say exactly what happens there.
- Address filter: masked addresses, which compare equal to several others, the settings endpoints and the default's storage. Phys known to the device tracker are a parameter.
- Base64: `isalnum` follows the C locale.
- Message packing, capture files, configuration files, channel tracking and displays are not part of this model.
