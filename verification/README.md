# Verified model of dpflow

This project models the parts of the Data Panel C++ library whose behaviour spans whole inputs
or whole runs, and proves what they promise.

* **Loader checksum and byte stuffing** (`Bits`, `Crc16`, `CrcPolynomial`, `Exponents`, `CrcOrder`,
  `CrcDetection`, `Stuffing`). The nested loop of `crc16` is shown to be long division by
  x^16 + x^12 + x^5 + 1 (the generator of section 2 of ITU-T V.41): its result is the one remainder
  there is. From that follow the error-detection guarantees, with their exact limits: all bursts of up
  to 16 bits and all but one pattern of 17, all odd numbers of flipped bits, and all errors of up to three
  bits in up to 4095 bytes but not in 4096, because the order of x modulo the generator is exactly 32767. A uint16 is modelled as its sixteen
  bits, most significant first; `Bits.ToBits` and `Bits.FromBits` tie it to the number.
* **Intel HEX** (`IntelHexGrammar`, `IntelHex`, `HexDump`, `IntelHexTheorems`). The 13-state parser is a
  class that refines a machine over characters, and the machine refines a whole-stream grammar: for every
  input, the callback log is what the grammar says, and the fields stand where the grammar is. About that
  grammar: records printed with `hexdump` come back, start codes resynchronise, noise and letter case do not
  matter, the checksum finds any single wrong byte, and what goes wrong with records that have no start code.
* **CAN frames and the SocketCAN codec** (`CanFrame`, `SocketCanCodec`). Round trips in both directions,
  each with its exact condition. A message is modelled as the fields of the kernel's frame structures;
  flag bits of the 32-bit identifier word are handled by division with their weight.
* **The CAN interface** (`CanConnection`, `ReadNotification`, `SocketCanBackend`). Connection states over every
  run with arbitrary system call results, whether the dispatcher watches the socket, and conservation of
  received frames.
* **The event dispatcher** (`TimerList`, `EventDispatcher`, `FileTable`). Timer order, one pass over the timers,
  the firing rate over every run, from below and from above, under an arbitrary non-decreasing clock; and when the table of file handlers
  agrees with the kernel.
* **User event types** (`EventRegistry`). Allocation over every sequence of calls.

`dafny verify dfyconfig.toml` checks everything.

## Where the code differs from what it documents or intends

Each of these is stated in the model as the code behaves, with the condition under which that makes no
difference.

* `include/dplib/IntelHex.h:72` says the start code is required only in strict mode; the code ignores
  digits before the first start code in both modes. Without strict mode a report is missing exactly when at
  least 10 + 2 * count digits stand there (`IntelHexTheorems.StartCodeRequired`), as in `00000001FF`
  (`IntelHexTheorems.StartCodeCounterexample`).
* Without strict mode, records that follow each other without a start code keep the data of the earlier
  ones, and their checksum is computed over the wrong bytes (`src/IntelHex.cpp:103-107`). They are reported
  as written exactly when only the last one carries data (`IntelHexTheorems.BackToBackFaithful`), and all
  their checksums agree exactly when for each record the first bytes of all the data have the same sum as
  its own (`IntelHexTheorems.BackToBackChecksums`). For `:01000000AA5501000100BB43` neither is so
  (`IntelHexTheorems.BackToBackCounterexample`).
* `include/dplib/net/can/CanFrame.h:171` lists the payload sizes of FD frames from 8 up; the code also accepts
  the smaller ones, and differs in nothing else (`CanFrame.DocumentedSizes`); an empty FD frame is one
  (`CanFrame.ShortFdFrame`).
* A classic message whose padding byte has one of the two flag bits of FD frames set is decoded differently,
  with the bit rate switch bit even as an FD frame (`src/net/can/backends/socketcan/SocketCanBackend.cpp:363-367`,
  `SocketCanCodec.PaddingIgnored`, `SocketCanCodec.PaddingCounterexample`).
* When `ioctl` or `bind` fails, `open` leaves the socket open, and every later `connect` fails without
  setting an error; when `socket` fails, a later one can succeed (`CanConnection.RetryAfterFailure`). Only the
  backend's own public `close` helps (`CanConnection.CloseRecovers`), which the interface class does not offer.
* Disconnecting does not remove the read handler that `open` registered with the dispatcher all interfaces
  share, and `open` does not look at the result of registering
  (`src/net/can/backends/socketcan/SocketCanBackend.cpp:305-317`). A connected interface is notified of messages
  exactly when no handler for reading its descriptor number stood in the table when it connected, and epoll_ctl
  had no objection of its own; so, unless
  the program removes handlers itself, exactly when neither this nor any other interface nor the program ever
  registered that number (`ReadNotification.NotifiedIff`). An interface that connects with a number used before
  is not notified, be it the same one again or a new one (`ReadNotification.ReconnectCounterexample`).
* `include/dplib/net/can/CanInterface.h:325` promises true from a successful `close`; the code returns false
  always, which is right exactly when no descriptor was open (`SocketCanBackend.SocketCanBackend.Close`).
* `include/dplib/net/can/CanInterface.h:173` promises the most recent frame from `recv`; the code returns the
  oldest and leaves it in the queue. That is the most recent exactly when the two are equal
  (`SocketCanBackend.SocketCanBackend.Recv`).
* `removeTimer` always returns false: it subtracts the sizes the wrong way round. The result is right exactly
  when no timer had the identifier (`EventDispatcher.EventDispatcher.RemoveTimer`).
* Firing re-arms a timer without sorting again, while the loop stops at the first timer that is not due,
  so a later pass can miss due timers (`TimerList.PassFiresDueIff`, `TimerList.SecondPassStarves`), as it does in
  `TimerList.MissedTimer`.
* A front timer that is overdue by a millisecond or more gives `epoll_wait` a negative timeout, which means
  to wait without limit (`TimerList.WaitReachesExpiry`, `TimerList.EndlessWait`).

## Model

| member | source | states |
|---|---|---|
| Crc16.Checksum | src/dploader.cpp:6-18 | the nested byte and bit loop computes bit-serial division of the message by the generator, from any start value |
| Crc16.PolyIs0x1021 | src/dploader.cpp:13 | the generator used by the specification is the constant 0x1021 of the code |
| CrcPolynomial.RunIsRemainder | src/dploader.cpp:8-16 | a register value is a remainder of (message * x^16 with the start value added to the top) modulo the generator iff it is what the loop leaves |
| CrcPolynomial.CrcIsRemainder | src/dploader.cpp:6-18 | from start 0 the checksum is the remainder of message * x^16, and no other value is |
| CrcPolynomial.DivisionUnique | src/dploader.cpp:8-16 | quotient and remainder of a division by the generator are unique |
| CrcDetection.RunXor | src/dploader.cpp:8-16 | the register is linear in message and start value together |
| CrcDetection.CrcLinear | src/dploader.cpp:6-18 | the checksum of an exclusive or is the exclusive or of the checksums, for start values likewise |
| CrcDetection.CrcConcat | src/dploader.cpp:6-18 | the checksum of a concatenation is that of the second part started from that of the first |
| CrcDetection.AppendedChecksum | src/dploader.cpp:6-18 | two appended bytes drive the register to zero iff they are the checksum, high byte first |
| CrcDetection.CollisionIsMultiple | src/dploader.cpp:8-16 | equally long messages collide iff their difference times x^16 is a multiple of the generator |
| CrcDetection.BurstDetected | src/dploader.cpp:6-18 | different messages whose differing bits lie in a window of 16 bits, at any alignment, have different checksums |
| CrcDetection.OddRun | src/dploader.cpp:11-15 | the parity of the register is the parity of start value and message bits together |
| CrcDetection.OddErrorsDetected | src/dploader.cpp:6-18 | an odd number of flipped bits always changes the checksum |
| CrcOrder.OrbitDouble | src/dploader.cpp:12-15 | the square of x^n modulo the generator is x^(2n) |
| CrcOrder.OrderOfX | src/dploader.cpp:12-15 | x^n is 1 modulo the generator iff n is a multiple of 32767 |
| CrcDetection.TwoBitDifference | src/dploader.cpp:8-16 | two messages that differ in exactly two bits collide iff the distance of the bits is a multiple of 32767 |
| CrcDetection.TwoBitErrors | src/dploader.cpp:6-18 | the same of checksums of bytes: flipping two bits goes unnoticed iff their distance is a multiple of 32767 |
| CrcDetection.FewErrorsDetected | src/dploader.cpp:6-18 | one to three flipped bits in up to 4095 bytes always change the checksum |
| CrcDetection.FewErrorsLimit | src/dploader.cpp:6-18 | that bound is sharp: two messages of 4096 bytes that differ in their first and last bit only have the same checksum, from any start value |
| CrcDetection.GeneratorPatternUndetected | src/dploader.cpp:8-16 | the limits are sharp: the generator's own pattern, four bits within seventeen, is never noticed |
| CrcDetection.OnlyGeneratorPattern | src/dploader.cpp:8-16 | different messages whose differing bits lie in a window of 17 bits collide iff their difference is the generator's pattern at the start of that window |
| Stuffing.Escape | src/dploader.cpp:28-35 | the loop produces the escaped form of the data |
| Stuffing.EscapeByte | src/dploader.cpp:20-26 | 0x01, 0x04 and 0x10 get a 0x10 in front, other bytes do not |
| Stuffing.Unescape | src/dploader.cpp:37-45 | the iterator loop reads the data in escape pairs, given that no DLE ends it without a partner |
| Stuffing.EscapedConcat | src/dploader.cpp:28-35 | escaping distributes over concatenation |
| Stuffing.EscapedLength | src/dploader.cpp:20-35 | escaping adds one byte for each occurrence of 0x01, 0x04 and 0x10 |
| Stuffing.RoundTrip | src/dploader.cpp:20-45 | unescaping an escaped string gives it back; escaped strings never end in half a pair, escape only 0x01, 0x04 and 0x10, and show none of them outside a pair |
| Stuffing.RoundTripBack | src/dploader.cpp:20-45 | escaping an unescaped string gives it back iff it was canonical |
| Stuffing.EscapedImage | src/dploader.cpp:20-35 | the escaped strings are exactly the canonical ones |
| IntelHex.Parser.Parse | src/IntelHex.cpp:33-111 | one character keeps the refinement: every field is the machine's and the callback log is the grammar's, for the whole input |
| IntelHex.Parser.ParseAll | src/IntelHex.cpp:23-31 | feeding a buffer is feeding its characters, so chunking does not matter |
| IntelHex.Parser.Consume | src/IntelHex.cpp:51-109 | the switch moves the fields as the machine does, and the last digit of a record calls the callback with the computed checksum |
| IntelHex.Refinement | src/IntelHex.cpp:33-111 | for every input, in both modes, the machine waits where the grammar ignores digits and otherwise holds exactly what the unfinished record's digits say |
| IntelHex.DigitReads | src/IntelHex.cpp:51-107 | a digit extends the unfinished record, or completes it in the last state only, and then the fields are what its digits decode to |
| IntelHex.Record.ComputeChecksum | src/IntelHex.cpp:9-15 | the eight-bit loop computes the negated sum of the record's bytes |
| IntelHex.Record.Clear | include/dplib/IntelHex.h:48-55 | clearing resets every field |
| IntelHex.InRange | src/IntelHex.cpp:51-107 | after every input, in every state, the pending digit leaves room for the next; the data index is in range and does not wrap, and the checksum loop stays inside the data |
| IntelHexGrammar.ScanSnoc | src/IntelHex.cpp:103-107 | how one more digit changes what the grammar makes of a segment, in both modes |
| IntelHexGrammar.DigitValues | src/IntelHex.cpp:36-39 | a digit's value is its place in 0123456789ABCDEF or 0123456789abcdef, and no other character is a digit |
| IntelHexTheorems.SegmentReport | src/IntelHex.cpp:80-107 | a segment reports iff it holds 10 + 2 * length digits; the first report has exactly its own data; strict mode reports no more |
| IntelHexTheorems.NoStartCode | src/IntelHex.cpp:54-55 | nothing is reported before the first start code, in either mode |
| IntelHexTheorems.LeadingDigits | src/IntelHex.cpp:40-45 | the first segment of an input holds the digits before its first start code |
| IntelHexTheorems.StartCodeRequired | include/dplib/IntelHex.h:72 | for every input, the log is what the comment promises iff in strict mode or less than a whole record stands before the first start code |
| IntelHexTheorems.StartCodeCounterexample | src/IntelHex.cpp:53-55 | `00000001FF` is a record without a start code, and is not reported |
| HexDump.HexDump | src/util/hexdump.cpp:18-25 | the printing loop writes two upper-case digits per byte with the separator in between |
| HexDump.PrintedConcat | src/util/hexdump.cpp:21 | the separator stands between bytes and nowhere else |
| HexDump.PrintedReads | src/util/hexdump.cpp:18-25 | a reader of printed text sees exactly the digits of the data, whatever the separator without digits and colons |
| HexDump.PairsOfNibbles | src/util/hexdump.cpp:18-25 | pairing those digits gives the data back |
| IntelHexTheorems.PrintParseRoundTrip | src/IntelHex.cpp:33-111 | any list of records, printed with any separators and surrounding text, is reported exactly and in order, in both modes |
| IntelHexTheorems.ChecksumMeaning | src/IntelHex.cpp:9-15 | computed and received checksum agree iff all bytes of the record add up to 0 modulo 256 |
| IntelHexTheorems.SingleByteErrorDetected | src/IntelHex.cpp:9-15 | replacing one byte other than the count of a correct record keeps it correct iff the byte is the same |
| IntelHexTheorems.Resynchronise | src/IntelHex.cpp:40-45 | the log of prefix, start code and rest is the log of the prefix followed by that of start code and rest |
| IntelHexTheorems.ForgetsPast | src/IntelHex.cpp:40-45 | every field of the parser depends on what follows the last start code alone |
| IntelHexTheorems.NoiseAndCaseIgnored | src/IntelHex.cpp:36-49 | inputs that agree in their digits and colons up to case give the same log and leave every field of the parser the same |
| IntelHexTheorems.CaseIgnored | src/IntelHex.cpp:36-39 | subtracting 32 from the codes of the letters a to f changes neither the log nor any field |
| IntelHexTheorems.SameParserState | src/IntelHex.cpp:23-49 | two parsers fed such inputs, in whatever chunks, have made the same callbacks and agree in every field |
| IntelHexTheorems.BackToBack | src/IntelHex.cpp:76-107 | records without start codes in between are reported with the data of all before them |
| IntelHexTheorems.BackToBackLog | src/IntelHex.cpp:33-111 | the same of the character stream they are printed to, with any separators and noise |
| IntelHexTheorems.BackToBackFaithful | src/IntelHex.cpp:103-107 | they are reported as written iff only the last one carries data |
| IntelHexTheorems.BackToBackChecksums | src/IntelHex.cpp:9-15 | for every list of correct records without start codes in between: a report agrees with its checksum iff the first bytes of all the data have the record's own sum, so all agree iff that holds of every record |
| IntelHexTheorems.BackToBackCounterexample | src/IntelHex.cpp:103-107 | the log of `:01000000AA5501000100BB43`, two correct records, the second reported with both data bytes and checksum 0x54 |
| CanFrame.CanFrame.constructor | include/dplib/net/can/CanFrame.h:126-131 | a new frame of a given type |
| CanFrame.CanFrame.WithData | include/dplib/net/can/CanFrame.h:151-161 | a new data frame with identifier and contents |
| CanFrame.CanFrame.SetFrameType | include/dplib/net/can/CanFrame.h:213-224 | changes only the type |
| CanFrame.CanFrame.SetExtendedId | include/dplib/net/can/CanFrame.h:239-242 | changes only the extended flag |
| CanFrame.CanFrame.SetId | include/dplib/net/can/CanFrame.h:265-275 | stores a 29-bit identifier, turning the extended flag on where needed, or marks it invalid |
| CanFrame.CanFrame.SetPayload | include/dplib/net/can/CanFrame.h:292-297 | stores the payload; more than eight bytes make an FD frame |
| CanFrame.CanFrame.SetError | include/dplib/net/can/CanFrame.h:337-343 | stores the low 29 bits in error frames only |
| CanFrame.CanFrame.SetFD | include/dplib/net/can/CanFrame.h:360-367 | leaving FD clears the bit rate switch and error state |
| CanFrame.CanFrame.SetBitrateSwitch | include/dplib/net/can/CanFrame.h:386-391 | a bit rate switch makes an FD frame |
| CanFrame.CanFrame.SetErrorState | include/dplib/net/can/CanFrame.h:407-410 | changes only the error state |
| CanFrame.CanFrame.SetLocalEcho | include/dplib/net/can/CanFrame.h:428-431 | changes only the echo flag |
| CanFrame.ReachableFrames | include/dplib/net/can/CanFrame.h:265-391 | constructors and setters produce exactly the frames in which a bit rate switch implies FD |
| CanFrame.PayloadSet | include/dplib/net/can/CanFrame.h:292-297 | a payload makes an FD frame iff it exceeds eight bytes or it was one, and leaves a valid frame valid iff a frame of that kind can have its size |
| CanFrame.IdSet | include/dplib/net/can/CanFrame.h:265-275 | an identifier leaves a valid frame valid iff it has at most 29 bits, and is then read back |
| CanFrame.ErrorSet | include/dplib/net/can/CanFrame.h:314-343 | error bits are read back from error frames, and change no others |
| CanFrame.FdSet | include/dplib/net/can/CanFrame.h:360-367 | a valid frame stays valid without FD iff its contents fit, and with FD iff it is no remote request; nothing of FD remains without it |
| CanFrame.BitrateSwitchSet | include/dplib/net/can/CanFrame.h:386-391 | a valid frame with a bit rate switch is a valid FD frame iff it is no remote request; taking it back leaves an FD frame |
| CanFrame.DocumentedSizes | include/dplib/net/can/CanFrame.h:163-200 | a frame is valid in the code iff it is by the documented rules, or keeps all but the size and is an FD frame below eight bytes |
| CanFrame.ShortFdFrame | include/dplib/net/can/CanFrame.h:163-200 | an empty FD frame, which setters produce, is valid in the code only |
| SocketCanCodec.SurvivesTheWire | src/net/can/backends/socketcan/SocketCanBackend.cpp:192-223 | for every reachable valid frame, which fields come back after encoding and decoding, and that the result is valid |
| SocketCanCodec.EncodedLayout | src/net/can/backends/socketcan/SocketCanBackend.cpp:192-223 | where identifier, type, flags, length, payload and padding of a valid frame stand on the wire, in numbers |
| SocketCanCodec.DecodedLayout | src/net/can/backends/socketcan/SocketCanBackend.cpp:351-376 | what each bit of an accepted message means for the frame, in numbers |
| SocketCanCodec.AcceptedLengths | src/net/can/backends/socketcan/SocketCanBackend.cpp:334-349 | classic messages are accepted up to length 8, FD messages up to 64, no others |
| SocketCanCodec.FrameRoundTrip | src/net/can/backends/socketcan/SocketCanBackend.cpp:351-376 | the frame comes back unchanged iff its type is known, it is no echo, an error state goes with FD, and an error frame is not needlessly extended |
| SocketCanCodec.DecodedValid | include/dplib/net/can/CanFrame.h:179-200 | an accepted message decodes to a valid frame iff it ends up classic, or is no remote request and has an allowed size |
| SocketCanCodec.WireRoundTrip | src/net/can/backends/socketcan/SocketCanBackend.cpp:334-376 | encoding a decoded message reproduces it iff its identifier word, flags and padding are canonical |
| SocketCanCodec.EncodedImage | src/net/can/backends/socketcan/SocketCanBackend.cpp:192-223 | the messages written for reachable valid frames are exactly the canonical ones of an allowed size |
| SocketCanCodec.PaddingIgnored | src/net/can/backends/socketcan/SocketCanBackend.cpp:363-369 | the padding byte of a classic message makes no difference iff neither flag bit is set in it |
| SocketCanCodec.PaddingCounterexample | src/net/can/backends/socketcan/SocketCanBackend.cpp:363-364 | a classic message with padding byte 1 decodes to an FD frame |
| SocketCanBackend.SocketCanBackend.Send | src/net/can/backends/socketcan/SocketCanBackend.cpp:181-231 | what is written, returned and recorded as error in every case |
| SocketCanBackend.SocketCanBackend.BuildFrame | src/net/can/backends/socketcan/SocketCanBackend.cpp:351-376 | the sequence of setters builds the decoded frame |
| SocketCanBackend.SocketCanBackend.ReadSocket | src/net/can/backends/socketcan/SocketCanBackend.cpp:319-382 | the loop ends, appends exactly the decodings of the accepted messages in order, and reports an error iff some message was dropped or lacked its time stamp |
| SocketCanBackend.SocketCanBackend.EnqueueRxFrames | src/net/can/CanInterface.cpp:64-70 | appends to the queue and to all that was ever received |
| SocketCanBackend.SocketCanBackend.Recv | src/net/can/CanInterface.cpp:128-143 | returns the oldest frame and leaves it queued; that is the most recent iff the two are equal |
| SocketCanBackend.SocketCanBackend.RecvAll | src/net/can/CanInterface.cpp:145-157 | hands out the queue and empties it; all that was ever received stays what was handed out or flushed, then the queue |
| SocketCanBackend.SocketCanBackend.FlushRx | src/net/can/CanInterface.cpp:122-126 | empties the queue and records what was flushed |
| SocketCanBackend.BusTransfer | src/net/can/backends/socketcan/SocketCanBackend.cpp:181-382 | of any sequence of send calls another interface receives the frames of those that succeed, all and in order, each as its encoding decodes; it receives all unchanged iff every call succeeds, FD frames with FD enabled, and each frame can be carried |
| SocketCanBackend.FdGuard | src/net/can/backends/socketcan/SocketCanBackend.cpp:200-215 | without FD enabled the same calls write exactly the classic messages that they write with it |
| SocketCanBackend.SocketCanBackend.SetState | src/net/can/CanInterface.cpp:193-200 | changes the state and emits it, unless it is the same |
| SocketCanBackend.SocketCanBackend.Open | src/net/can/backends/socketcan/SocketCanBackend.cpp:259-309 | the outcome for every combination of system call results; success asks the dispatcher to watch the socket |
| SocketCanBackend.SocketCanBackend.Close | src/net/can/backends/socketcan/SocketCanBackend.cpp:311-317 | forgets the socket and ends disconnected; the kernel stops watching it, the handler stays; the result is always false, right iff no descriptor was open |
| SocketCanBackend.SocketCanBackend.Connect | src/net/can/CanInterface.cpp:159-176 | keeps the connection settled and does one connect step, on the connection and on the handlers |
| SocketCanBackend.SocketCanBackend.Disconnect | src/net/can/CanInterface.cpp:178-186 | keeps the connection settled and does one disconnect step, on the connection and on the handlers |
| CanConnection.RunSettled | src/net/can/CanInterface.cpp:159-200 | over every run of connect, disconnect, open and close: connected means an open socket, and the emitted states are a legal path without repeats to the current state iff open and close were never called directly to change it, as is so through the interface |
| CanConnection.ConnectResult | src/net/can/CanInterface.cpp:159-176 | when connect succeeds, and what it has emitted and set in either case |
| CanConnection.DisconnectResult | src/net/can/CanInterface.cpp:178-186 | what disconnect emits and leaves from a connected interface, and that it does nothing otherwise |
| CanConnection.WedgedForever | src/net/can/backends/socketcan/SocketCanBackend.cpp:261-263 | disconnected with a leftover socket stays so in every run without a direct close |
| CanConnection.CloseRecovers | src/net/can/backends/socketcan/SocketCanBackend.cpp:311-317 | after a direct close, connect succeeds iff its system calls do |
| CanConnection.RetryAfterFailure | src/net/can/backends/socketcan/SocketCanBackend.cpp:266-286 | after a failed connect some later calls, none of them a direct close, can succeed iff the socket call was what failed |
| FileTable.FileTable.AddFile | src/core/EventDispatcher.cpp:41-74 | refuses negative and known descriptors and what epoll_ctl refuses, for whatever reason, and otherwise adds the handler and watches the descriptor |
| FileTable.FileTable.RemoveFile | src/core/EventDispatcher.cpp:76-107 | removes a handler and stops watching, unless it is unknown or epoll_ctl refuses |
| FileTable.RemoveUndoesAdd | src/core/EventDispatcher.cpp:41-107 | a file that could be added can be removed, and then table and kernel are as before |
| FileTable.RemoveWhereMirrored | src/core/EventDispatcher.cpp:76-107 | where table and kernel agree, a removal succeeds iff the file is in the table, is then gone from both, and touches no other descriptor |
| FileTable.RunMirrors | src/core/EventDispatcher.cpp:41-107 | over every run the table mirrors the kernel's set iff no watched descriptor was closed; no later calls repair that |
| ReadNotification.HandlersStay | src/core/EventDispatcher.cpp:41-74 | over every run of any number of interfaces beside the rest of the program, the read handlers are those of the start and all registered since, unless the program removes some |
| ReadNotification.NotifiedIff | src/net/can/backends/socketcan/SocketCanBackend.cpp:259-317 | in every such run, from the opening call to the end of the connection, the socket is watched iff epoll_ctl had no other objection and no read handler for its number stood in the table, which means none from the start and none registered since by any interface or the program |
| ReadNotification.ReconnectCounterexample | src/net/can/backends/socketcan/SocketCanBackend.cpp:305-317 | connect and disconnect, then connect the same or another interface with the same number: connected and not watched |
| TimerList.IdsCountUp | src/core/EventDispatcher.cpp:12-25 | the first identifier is 1, each next one greater, and after the greatest 32-bit number comes the least |
| TimerList.SameId | src/core/EventDispatcher.cpp:12-25 | identifiers repeat exactly after 2^32 timers |
| TimerList.IdsDistinct | src/core/EventDispatcher.cpp:12-25 | the identifiers in a list are pairwise distinct iff no two of its timers were created a multiple of 2^32 apart |
| TimerList.SortCorrect | src/core/EventDispatcher.cpp:27 | sorting gives the same timers in order of expiry and keeps the order of equals |
| TimerList.SortUnique | include/dplib/core/EventDispatcher.h:66 | no other result has those properties |
| TimerList.WithoutKeeps | src/core/EventDispatcher.cpp:36 | removal takes away exactly the timers with the identifier |
| TimerList.WithoutConcat | src/core/EventDispatcher.cpp:36 | removal looks at one timer after the other, so the others keep their order |
| EventDispatcher.EventDispatcher.AddTimer | src/core/EventDispatcher.cpp:22-30 | adds the new timer to any list and leaves it sorted, with all other timers; keeps the rate invariant |
| EventDispatcher.EventDispatcher.RemoveTimer | src/core/EventDispatcher.cpp:32-39 | the effect on the list, and that the result is always false, which is right iff no timer had the identifier |
| EventDispatcher.LiveIdsDistinct | src/core/EventDispatcher.cpp:12-25 | in every state the identifiers of the live timers are pairwise distinct while at most 2^32 timers were created, and after that iff no two were created a multiple of 2^32 apart |
| EventDispatcher.EventDispatcher.WaitTimeout | src/core/EventDispatcher.cpp:120-125 | the timeout handed to epoll_wait |
| EventDispatcher.EventDispatcher.FireTimers | src/core/EventDispatcher.cpp:141-151 | the loop is one pass: it fires a prefix, each timer once and none early, records exactly those firings, and keeps the records' invariant |
| EventDispatcher.EventDispatcher.Expired | include/dplib/core/EventDispatcher.h:67-70 | a timer is due iff a new reading has reached its expiry |
| EventDispatcher.EventDispatcher.Fire | include/dplib/core/EventDispatcher.h:71-74 | the timer's new expiry is the reading after its callback plus its period in nanoseconds, and nothing else in the list changes |
| EventDispatcher.LedgerFire | include/dplib/core/EventDispatcher.h:67-74 | a firing found due and re-armed from the next reading keeps every record: expiries exactly a period after arming, no firing early, none missed |
| EventDispatcher.FiringRate | include/dplib/core/EventDispatcher.h:71-74 | in every state the n-th firing of a timer came no earlier than its creation plus n periods |
| EventDispatcher.FiringPunctual | src/core/EventDispatcher.cpp:141-149 | in every state, each firing came a period or more after the reading that armed it, and in the first pass over a sorted list that began from then on, if not earlier |
| EventDispatcher.LivePunctual | src/core/EventDispatcher.cpp:141-149 | in every state, each live timer expires exactly a period after the reading that armed it, and no pass over a sorted list since began at or after that |
| TimerList.RearmedIsDue | include/dplib/core/EventDispatcher.h:71-74 | a timer re-armed at a reading is due iff a period of milliseconds has passed since |
| TimerList.FiresAgain | src/core/EventDispatcher.cpp:141-149 | a re-armed timer fires in every pass over a sorted list that begins a period later or after, and in none that checks it earlier |
| TimerList.PassFiresDue | src/core/EventDispatcher.cpp:141-149 | from a sorted list every timer due at the start fires and what does not fire stays sorted |
| TimerList.PassFiresDueIff | src/core/EventDispatcher.cpp:141-149 | on any list all due timers fire iff each timer in front of one has expired when the loop comes to it; for that it is enough, and when no time passes needed, that the due ones stand in front |
| TimerList.SecondPassStarves | src/core/EventDispatcher.cpp:145-148 | after a pass over a sorted list, the next pass fires nothing while the re-armed first timer is not due, however late the second is |
| TimerList.MissedTimer | src/core/EventDispatcher.cpp:141-149 | two timers and two clocks for which a timer overdue by 40 ns is missed |
| TimerList.WaitReachesExpiry | src/core/EventDispatcher.cpp:123-124 | the timeout reaches the expiry and overshoots by less than a millisecond; it is negative iff the timer is overdue by a millisecond or more |
| TimerList.EndlessWait | src/core/EventDispatcher.cpp:123-124 | a timer overdue by exactly a millisecond gives the timeout -1 |
| TimerList.WaitThenPass | src/core/EventDispatcher.cpp:120-149 | once the timeout has passed, the pass fires the first timer, and from a sorted list every timer due by then |
| EventDispatcher.EventDispatcher.ProcessEvents | src/core/EventDispatcher.cpp:115-152 | one turn: the wait and the pass together, with what fires, what is recorded and the result |
| EventRegistry.UserEventRegistry.RegisterEventType | src/core/Event.cpp:26-43 | a free hint in range is honoured, otherwise the greatest free number is taken, and -1 means that none is free |
| EventRegistry.OneCall | src/core/Event.cpp:28-42 | a call fails iff all 55536 numbers are taken, and otherwise takes one that was free |
| EventRegistry.Runs | src/core/Event.cpp:26-43 | over any sequence of calls the numbers handed out are distinct, in range, and exactly the taken ones |
| EventRegistry.SuccessCount | src/core/Event.cpp:26-43 | of any sequence of calls exactly the first 55536 succeed |

## Left out

- `decode` and both `encode` functions of the loader: unfinished in the source.
- `unescape` of data that ends in a lone DLE: undefined behaviour in the source, excluded by the precondition of `Stuffing.Unescape`.
- EventDispatcher.EventDispatcher.ProcessEvents: dispatch of ready file descriptors, which reads the event fields crosswise, is left out, and so is the interrupt flag.
- SocketCanBackend.SocketCanBackend.Open: applying the stored configuration options is not modelled, because the map that stores them is never given an entry (`src/net/can/CanInterface.cpp:84-89`), so the loop has nothing to do.
- IntelHexTheorems.BackToBackFaithful: the callback gets the parser's own record and could clear or change its data (`include/dplib/IntelHex.h:56-57`); the model's callbacks leave it alone.
- Callbacks and signal handlers that call back into the object that called them, threads and mutexes: callbacks are entries in a log, and take time only.
- The byte layout of the kernel's frame structures: messages are records of their fields, with the padding byte of a classic frame in the place of the flags.
- Time stamps, error messages, configuration options (the FD flag is a free constant), interface scanning, bus status and restart.
- The transmit queue, which nothing in the repository fills or empties.
- Overflow of the clock's 64-bit nanosecond count and of the int timeout.
- Several dispatchers that share the identifier counter: the invariant allows the counter to run ahead, but a second dispatcher is not modelled beside the first.
- `Timer`, `Signal`, `Application`, `Platform`, `CanBus`, `ElapsedTimer`, formatters and command-line programs.
