# Pico Pagers, modelled and verified

A restaurant pager system: a server on a Pico W keeps a list of pagers, takes requests over HTTP, and
sends pairing and flash messages over a one-way radio link to the pagers. This project models its
stateful parts in Dafny and proves what they promise.

- **The radio link.** `NumberTheory` and `Security` (textbook RSA over 16-bit words), `Crc` (the
  table-driven CRC-16 and the errors it detects), `Protocol` (records and frames), `Physical`,
  `Transmission`, `Reception` and `Resynchronisation` (the interrupt-driven transmitter and receiver),
  `Client` (the pager), and `Link`, which puts them together: every record the server queues arrives
  with all its fields.
- **The server over runs.** `Pagers` (the list behind a dirty flag), `MessageQueue` (counters,
  sequence numbers and send rounds), `Leases`, `DhcpServer` and `DhcpExchange` (address leases on
  wrapping clocks, and the exchange as a client reads it).
- **Receiving requests.** `CircularBuffer` (the ring buffer with a hidden prefix), `RequestHead`,
  `RequestText`, `HttpServerClient` and `HttpServer` (the incremental parser of request heads).
- **JSON and MessagePack.** `JsonValue`, `JsonText`, `JsonGrammar`, `JsonDeserializer`, `JsonRoundTrip`,
  `JsonNesting`, `JsonRepeatedKeys`, `JsonSpellings`, `JsonPrinting`, `JsonCut`, `JsonUnicode`, `JsonMemory`,
  `JsonLoading`, `MsgPack`, `MsgPackSerializer`, `MsgPackDeserializer`, `MsgPackForms`, `MsgPackLoading`,
  and the storage below them, `MemoryPool` and `Collections`; `Memory` holds what several modules say
  about bytes.

Code that works on variables in place is a class or a method proved against a function of its state;
the properties of runs are lemmas about those functions. A byte of text is a `char`, a byte of the
link a `bv8`, and integer widths are written out where they matter. I/O, clocks and undefined values
are parameters.

`dafny verify dfyconfig.toml` checks the project.

## Where the code does not do what one might expect

Each of these is a statement in the model, with the exact condition where there is one.

- `wrap_buffer` loses the order of unwrapped data unless nothing was written since the buffer started
  over (`CircularBuffer.WrapKeepsContents`; for example `WrapRepeats`), and a completely full ring buffer
  reads as empty (`CircularBuffer.WriteAppends`; for example `FullReadsEmpty`).
- `recv_line` meets a first line of a single newline by wrapping, and leaves the newline in the buffer
  (`HttpServerClient.HttpServerClient.RecvLine`).
- The receiver drops frames of exactly 128 bytes (`Reception.WholeMessageHeard`), and a `send_bytes` of
  no bytes goes on until its handler leaves the 128-byte buffer (`Transmission.TransferLength`).
- `loop` clears the dirty flag when saving failed (`Pagers.SaveSucceedsExactly`; for example
  `FailedSaveForgets`).
- A lease looks valid again 2^31 ms after its end (`Leases.OldLeaseLooksValid`), and a zero hardware
  address holds no lease (`Leases.ZeroMacHoldsNothing`).
- A JSON object with a repeated key keeps one member, a null does not overwrite its value
  (`JsonRepeatedKeys.RepeatedKeyCollapses`), and a key ends at its first NUL
  (`JsonRepeatedKeys.NulKeyIsCut`). Exactly the other values come back (`JsonNesting.RoundTripExactly`).
  A number with white space behind it is refused (`JsonSpellings.NumberWithSpace`); every other JSON
  text of a float-free value is accepted (`JsonSpellings.EveryTextRead`). The parser accepts seven
  characters beside the hexadecimal digits (`JsonGrammar.IsHexDigit`), leading zeros
  (`JsonPrinting.NumberExactly`), single quotes and keys without quotes (`JsonSpellings.AlsoAccepted`).
- A MessagePack key is cut at its first NUL (`MsgPack.NulKeyIsCut`). Exactly the other values come back
  numerically equal (`MsgPack.RoundTripExactly`).
- A flash may miss up to half a second of its time, since the first toggle goes by the last one before
  the record (`Client.FlashLasts`); a flash of one second may not be seen at all
  (`Client.OneSecondUnseen`).
- A control character without a short escape is printed raw, and what is printed is then no JSON
  (`JsonPrinting.PrintedIsJson`; for example `BellIsRaw`).
- White space around a field value stays in it, but for one leading space (`RequestText.ReadExactly`).
- A frame that reaches the pager before the main loop is through with the one before is lost
  (`Client.AcceptedExactly`).
- Asking for a member under a key with a NUL can leave an object with two equal keys
  (`Collections.CollectionData.GetOrAddMember`).
- `power` answers 0 for 0^0 (`Security.PowerResultIsPower`), an input it never gets: it is a static function,
  called with the exponents e and d only.

## Model

| member | source | states |
|---|---|---|
| NumberTheory.Fermat | pagers-common/security.cpp:31-41 | Fermat's little theorem for every base, multiples of the prime included: what the key pair rests on |
| NumberTheory.TrialDivision | pagers-common/security.cpp:26-29 | a number without divisors below a bound whose square exceeds it is prime |
| NumberTheory.TwoPrimeExponent | pagers-common/security.cpp:26-41 | an exponent that is 1 modulo p - 1 and q - 1 leaves every residue of pq alone, coprime to pq or not |
| Security.Power | pagers-common/security.cpp:6-24 | `power`: terminates on the exponent and returns the modular power (0 for a base divisible by p), below p, for every base from 0 and every modulus up to 3037000500 |
| Security.MulMod | pagers-common/security.cpp:16-20 | with such a modulus no product of residues leaves the 64-bit signed range |
| Security.LargerModulusOverflows | pagers-common/security.cpp:16-20 | the bound on the modulus is exact: one more and the square of the largest residue overflows |
| Security.PowerStep | pagers-common/security.cpp:14-21 | one turn of the loop keeps res * x^y fixed modulo p |
| Security.PowerResultIsPower | pagers-common/security.cpp:6-24 | the answer is x^y mod p exactly if y is positive, x is no multiple of p, or p is 1 (the code answers 0 for 0^0) |
| Security.FactorsArePrime | pagers-common/security.cpp:27 | n is the product of the primes 48271 and 50159 |
| Security.KeysCancel | pagers-common/security.cpp:26-29 | raising to d and then to e gives back every number below n |
| Security.CryptoEncrypt | pagers-common/security.cpp:31-35 | fills exactly the first len cells, each from its word |
| Security.CryptoDecrypt | pagers-common/security.cpp:37-41 | fills exactly the first len words, with the narrowing to 16 bits |
| Security.DecryptUndoesEncrypt | pagers-common/security.cpp:31-41 | every 16-bit word survives, 0 and the multiples of the prime factors included |
| Security.DecryptUndoesEncryptWords | pagers-common/security.cpp:31-41 | so does every array of words, of any length |
| Security.PublicExponentReads | pagers-common/security.cpp:26-35 | which exponent encrypts: the public one, 65537, alone undoes the encryption of every word |
| Security.DecryptIsPublic | pagers-common/security.cpp:26-41 | decrypting any cell raises it to the public exponent modulo n and keeps sixteen bits |
| Crc.Crc16.EntryBit | pagers-common/crc.cpp:32-33 | one turn of the inner loop clocks the register once: the new entry and the remaining index together are the old ones after a clock without input |
| Crc.Crc16.Entry | pagers-common/crc.cpp:27-38 | a table entry is its index after eight clocks of the shift register |
| Crc.Crc16.InitTable | pagers-common/crc.cpp:18-43 | every entry of the table is right and the flag is set |
| Crc.TableStep | pagers-common/crc.cpp:56-59 | looking up the low half and moving the high half down is eight clocks of the register with the byte as input |
| Crc.Crc16.Update | pagers-common/crc.cpp:58 | one turn of the loop takes in the eight bits of a byte, least significant first |
| Crc.Crc16.Calc | pagers-common/crc.cpp:45-63 | `crc_16` equals the bit-at-a-time CRC with the reflected polynomial 0xA001 from 0, on every byte string, whether or not the table existed |
| Crc.ChecksumBits | pagers-common/crc.cpp:45-63 | the same checksum as a register of sixteen bits clocked once per input bit |
| Crc.CrcLinear | pagers-common/crc.cpp:45-63 | the CRC of the XOR of two inputs of one length is the XOR of their CRCs |
| Crc.ClockInvertible | pagers-common/crc.cpp:32-33 | a clock without input loses nothing: only the zero register becomes zero |
| Crc.ClockParity | pagers-common/crc.cpp:32-33 | a clock keeps the parity of the register together with its input |
| Crc.MatchIsZeroResidue | pagers-common/crc.cpp:45-63 | a stored checksum matches exactly if the register run over the data and that checksum, low byte first, ends at zero |
| Crc.ErrorPattern | pagers-common/crc.cpp:45-63 | flipped bits go unnoticed exactly if the pattern of flips alone leaves a zero register |
| Crc.BurstsDetected | pagers-common/protocol.cpp:11-17 | every non-zero error within sixteen consecutive bits, checksum included, is noticed, in data of any length |
| Crc.OddErrorsDetected | pagers-common/protocol.cpp:11-17 | every odd number of flipped bits, checksum included, is noticed |
| Crc.CheckValue | pagers-common/crc.cpp:7-63 | which CRC it is: the digits "123456789" give 0xBB3D, the check value of CRC-16/ARC |
| Crc.GeneratorOnly | pagers-common/crc.cpp:12-43 | of all errors that begin at a bit and last seventeen exactly one goes unnoticed, the generator x^16 + x^15 + x^2 + 1: the bound of sixteen is exact |
| Protocol.ProtoData.ChecksumCalc | pagers-common/protocol.cpp:6-9 | sets the checksum field to the CRC of the fourteen bytes before it and changes no other field |
| Protocol.ProtoData.ChecksumVerify | pagers-common/protocol.cpp:11-17 | SUCCESS exactly if the stored checksum is that CRC |
| Protocol.ProtoEncrypt | pagers-common/protocol.cpp:19-23 | fills the frame with the sixteen bytes of the record as eight encrypted little-endian cells |
| Protocol.ProtoDecrypt | pagers-common/protocol.cpp:25-29 | fills the record from the decrypted cells |
| Protocol.MessageRoundTrip | pagers-common/protocol.hpp:10-21 | the record is determined by its eight 16-bit words in memory |
| Protocol.FrameRoundTrip | pagers-common/protocol.cpp:19-29 | decrypting the frame of any record gives back every field |
| Protocol.SignedHolds | pagers-common/protocol.cpp:6-17 | a record whose checksum was just calculated verifies |
| Protocol.ChecksumHoldsMatches | pagers-common/protocol.cpp:11-17 | verification is the CRC match, and the record in memory is its data followed by the checksum, low byte first |
| Protocol.CorruptionDetected | pagers-common/protocol.cpp:11-17 | a signed record with a burst of at most sixteen bits or an odd number of bits flipped in its sixteen decrypted bytes fails verification |
| Protocol.ChangedCellDetected | pagers-common/protocol.cpp:11-29 | a frame of a signed record that arrives with any changes within one of its eight encrypted cells decrypts to that record or fails verification |
| Protocol.RecordLayout | pagers-common/protocol.hpp:10-21 | the record in memory by byte numbers: sequence number, receiver, type, parameter and checksum, low byte first |
| Protocol.FrameLayout | pagers-common/protocol.cpp:19-23 | the frame by byte numbers: its k-th four bytes, low byte first and raised to the public exponent, are the k-th two bytes of the record |
| Protocol.ChecksumLayout | pagers-common/protocol.cpp:6-17 | the checksum holds exactly if the last two bytes of the record are the CRC of the fourteen before them, low byte first |
| Physical.ToleranceExact | pagers-common/physical.hpp:29-37 | every pulse count within 170 of its duty is read as the symbol sent, and no larger tolerance has that property |
| Physical.Transmitter.PwmWrapIrq | pagers-common/physical.cpp:61-84 | the interrupt handler as a function of the shared variables |
| Physical.Transmitter.StartTransfer | pagers-common/physical.cpp:86-97 | the writes of `send_bytes` after its waiting |
| Physical.Receiver.RxFallCallback | pagers-common/physical.cpp:135-179 | the falling-edge handler as a function of the shared variables and what it delivers |
| Physical.Receiver.AcceptBit | pagers-common/physical.cpp:162-178 | a bit is shifted into the current byte by the XOR of the source; a full buffer starts over |
| Transmission.SleepSpansWraps | pagers-common/physical.hpp:39-41 | the spacing sleep certainly spans 19 wrap interrupts, and no more |
| Transmission.LevelsOnAir | pagers-common/physical.hpp:22-37 | the levels by their counts of 1024: 512 in silence, 853 for a set and 170 for a clear bit, most significant first |
| Transmission.InterruptKeepsInv | pagers-common/physical.cpp:61-84 | a wrap interrupt at any point of the sending thread keeps the invariant |
| Transmission.SendKeepsInv | pagers-common/physical.cpp:86-97 | every single write of the sending thread keeps the invariant |
| Transmission.EmittedLevels | pagers-common/physical.cpp:55-97 | in every interleaving of the single writes with interrupts the air carries silence, then each started message whole, most significant bits first, in order, with more silent cycles between messages than the sleep spans; indices stay in range |
| Transmission.TransferLength | pagers-common/physical.cpp:61-97 | a transfer of at least one byte is over after exactly 8 * count + 1 interrupts; one of no bytes is not, up to the point where the handler leaves the 128-byte buffer |
| Transmission.WritesStartTransfer | pagers-common/physical.cpp:91-96 | left alone, the single writes add up to what `send_bytes` does in one go |
| Reception.WholeByte | pagers-common/physical.cpp:166-167 | eight shifts leave nothing of what a buffer cell held before |
| Reception.SteadyExactly | pagers-common/physical.hpp:39-41 | the silence between messages ends a frame exactly, with clocks of one rate, if edges lie no more than 1.878 ms outside their cycles, and without jitter if the receiver has at least 52.6 per cent of the rate of the sender |
| Reception.SilenceIsLong | pagers-common/physical.hpp:39-41 | so many cycles after a bit, wherever the edges lie within the jitter, the threshold of ten nominal cycles has passed |
| Reception.TimingExact | pagers-common/physical.cpp:149-160 | for every shortest cycle, jitter, silence and message: the message is certain to have arrived after that silence exactly if the silence outlasts threshold and jitter; otherwise edges are given for which it has not |
| Reception.SilenceHeard | pagers-common/physical.cpp:149-160 | silent edges change nothing until they deliver what was pending and empty the buffer; after enough of them they have |
| Reception.WholeMessageHeard | pagers-common/physical.cpp:135-179 | the edges of one message leave exactly its bytes pending, or nothing if it fills all 128 cells |
| Reception.MessagesDelivered | pagers-common/physical.cpp:135-179 | whatever the buffer held, however pulses and edges are off within their tolerances, and whatever the rates of the two clocks, the callback gets each message of fewer than 128 bytes once, whole and in order, and no others, if the silences end frames |
| Reception.QuietSoFar | pagers-common/physical.cpp:135-179 | at any moment of a silence all messages have been delivered, or all but the last |
| Reception.MidwaySoFar | pagers-common/physical.cpp:135-179 | while a message is on the air, all those before it have been delivered and nothing of it |
| Resynchronisation.Resynchronises | pagers-common/physical.cpp:135-179 | whatever the receiver holds and whatever bits it hears first, behind a silence that ends a frame every message arrives, after one piece of garbage at most |
| Resynchronisation.SwitchedOn | pagers-common/physical.cpp:107-179 | a receiver switched on in the middle of any message of a run delivers every later message whole and in order, after one piece of garbage at most |
| Resynchronisation.FromIsSuffix | pagers-common/physical.cpp:61-84 | what such a receiver hears is the rest of what is on the air |
| Client.PagerClient.Receive | pagers-client/main.cpp:20-33 | the callback takes a frame of the right size into an empty mailbox and otherwise changes nothing |
| Client.FramesNeverTorn | pagers-client/main.cpp:20-146 | in every interleaving of the callback with the single reads of the main loop, what was decoded are the accepted frames, whole, in order and once each; at most one is outstanding |
| Client.AcceptedExactly | pagers-client/main.cpp:20-33 | in every interleaving frames are accepted as they are handed over exactly as long as each has the right size and finds the mailbox empty; one that does not is lost |
| Client.ProcessedExactly | pagers-client/main.cpp:20-146 | once the main loop is through it has decoded every frame handed over, in order, exactly if each found the mailbox empty |
| Client.PagerClient.ProcessFrame | pagers-client/main.cpp:94-146 | a present frame is decrypted, verified for the light only, acted on, and the mailbox emptied |
| Client.PairingFollowsButton | pagers-client/main.cpp:79-172 | over every run of turns without pairing records, pairing mode is on exactly if the number of button releases makes it so, and the id stays |
| Client.IdNeedsButton | pagers-client/main.cpp:79-172 | over every run of turns without a button release a pager out of pairing mode keeps its id, whatever it hears |
| Client.FlashLasts | pagers-client/main.cpp:79-172 | how long a flash lasts, over every run of turns behind the one that hears its record, without another flash record for this pager but whatever else is heard or pressed: from the moment it can first toggle at least its toggles but one, of more than half a second each, and from the record at most its toggles, of half a second and the time between two turns each |
| Client.OneSecondUnseen | pagers-client/main.cpp:121-172 | a flash of one second is over, and the LED dark again, in the turn that hears its record exactly if the LED was dark and the last toggle is more than half a second ago |
| Client.FlashEndsDark | pagers-client/main.cpp:79-172 | over every run of turns without a button release the LED is dark when the flash is over |
| Client.HandlingIsIdempotent | pagers-client/main.cpp:94-129 | a repeated record changes nothing more |
| Client.OthersIgnored | pagers-client/main.cpp:111-129 | any number of records for others leave a pager alone unless it waits to be paired |
| Client.PairingTakesEffect | pagers-client/main.cpp:111-119 | any positive number of repeated pairing records gives a waiting pager its id |
| Client.FlashTakesEffect | pagers-client/main.cpp:121-129 | any positive number of repeated flash records gives a pager its flash time |
| Client.FlashEnds | pagers-client/main.cpp:156-172 | counted from the last toggle before it, a flash takes exactly as many further toggles as it has left; behind each of them the LED is lit exactly if an even number of toggles, and not none, is still to come |
| Client.FlashLit | pagers-client/main.cpp:156-172 | over every run of turns behind a flash record, out of pairing mode, without a release and another flash record for the pager: the LED is lit exactly between a toggle that leaves an even number of them to come and the next one (from a dark LED the first, the third and so on, the last excepted), a toggle being due in the first turn more than 500000 us after the one before |
| Client.PairingBlinks | pagers-client/main.cpp:148-154 | over every run of turns in pairing mode without a flash, the LED toggles with every turn more than 100000 us after its last toggle |
| Client.PairingEndsDark | pagers-client/main.cpp:79-119 | pairing mode ends, by a release or a record, with a dark LED unless a flash is running |
| Client.CorruptionShown | pagers-client/main.cpp:94-107 | a signed record gives the green light; with a burst of at most sixteen bits or an odd number of bits flipped it gives the red one |
| Client.ChangedCellShown | pagers-client/main.cpp:94-107 | whatever changed in one encrypted cell of its frame, the light is green exactly if the record sent is decrypted, and red otherwise |
| Pagers.AscendingContents | pagers-server/pagers/pagerlist.hpp:35-37 | the list is iterated over every id once, in ascending order |
| Pagers.PagerList.AddPager | pagers-server/pagers/pagerlist.cpp:7-14 | adds a pager under a new id and sets the flag, or refuses a known id and changes nothing |
| Pagers.PagerList.RemovePager | pagers-server/pagers/pagerlist.cpp:16-23 | removes a known id and sets the flag, or changes nothing |
| Pagers.PagerList.LoadFs | pagers-server/pagers/pagerlist.cpp:32-67 | every five-byte record of the file puts a new pager under the number `sscanf` reads in it, narrowed to 16 bits; a rest is ignored and an absent file changes nothing |
| Pagers.PagerList.UpdateFs | pagers-server/pagers/pagerlist.cpp:69-96 | writes the ascending lines of the map, as many as the storage takes, or nothing if the file does not open |
| Pagers.PagerList.Loop | pagers-server/pagers/pagerlist.cpp:98-103 | saves if the flag is set and clears it in any case |
| Pagers.LineRoundTrip | pagers-server/pagers/pagerlist.cpp:59-88 | the line of an id reads back as that id |
| Pagers.ScanReads | pagers-server/pagers/pagerlist.cpp:59-61 | white space, a sign, a prefix and hexadecimal digits of either case are scanned as the number they stand for |
| Pagers.LineWritten | pagers-server/pagers/pagerlist.cpp:80-88 | the line of an id: its four hexadecimal digits in lower case, the highest first, and a newline |
| Pagers.SavedFileRestores | pagers-server/pagers/pagerlist.cpp:32-96 | loading what was saved gives exactly the ids |
| Pagers.SaveSucceedsExactly | pagers-server/pagers/pagerlist.cpp:69-103 | after a save the file matches the map exactly if every line was written, or the file did not open but matched before |
| Pagers.CutSaveRestores | pagers-server/pagers/pagerlist.cpp:32-96 | after a save that storage cuts short a reboot restores exactly the ids whose lines were written, the lowest ones |
| Pagers.FailedSaveForgets | pagers-server/pagers/pagerlist.cpp:69-103 | a pager added when the file cannot be opened: the flag is clear, and a reboot forgets it |
| Pagers.OperationKeepsSynced | pagers-server/pagers/pagerlist.cpp:7-103 | with working storage each operation keeps: a clear flag means that the file is the ascending lines of the map |
| Pagers.BootIsSynced | pagers-server/pagers/pagerlist.cpp:32-67 | an empty list that loads a saved or absent file starts in that state |
| Pagers.RunStaysSynced | pagers-server/pagers/pagerlist.cpp:7-103 | over every run of add, remove, load and loop, a clear flag means that a reboot restores exactly the ids |
| Pagers.RunLists | pagers-server/pagers/pagerlist.cpp:7-103 | over every run the list, and with a clear flag what a reboot restores, are exactly the ids that were added or loaded and not removed since |
| MessageQueue.PagersServer.SendMessage | pagers-server/main.cpp:263-272 | the next sequence number, the checksum, the frame, and one transfer |
| MessageQueue.PagersServer.SendMessages | pagers-server/main.cpp:274-298 | one round over the map in ascending order |
| MessageQueue.PagersServer.Visit | pagers-server/main.cpp:278-297 | at most one flash and then one pair message, each taking one off its counter |
| MessageQueue.PagersServer.HttpPagersPair | pagers-server/main.cpp:184-209 | a new or known pager is owed five pair messages; the parameter is narrowed to 16 bits |
| MessageQueue.PagersServer.HttpPagersFlash | pagers-server/main.cpp:241-258 | a known pager is owed five flash messages with the given time |
| MessageQueue.PagersServer.HttpPagersRemove | pagers-server/main.cpp:227-239 | the pager and what it was owed are gone |
| MessageQueue.RunKeepsInv | pagers-server/main.cpp:184-298 | over every run the k-th message carries sequence number k modulo 2^64 and a valid checksum, and counters stay in 0..5 |
| MessageQueue.Conservation | pagers-server/main.cpp:184-298 | over every run, per pager and kind, messages sent plus messages left grow exactly by what requests grant and removals forget |
| MessageQueue.RoundDecrementsAll | pagers-server/main.cpp:274-298 | a round takes one from every positive counter of every pager |
| MessageQueue.RoundGoesInOrder | pagers-server/main.cpp:274-298 | a round sends by ascending id, and to one pager flash before pair |
| MessageQueue.FiveRoundsQuiesce | pagers-server/main.cpp:274-298 | five rounds without requests always reach a state in which a round sends nothing |
| MessageQueue.MessagesSayAsked | pagers-server/main.cpp:184-298 | over every run each message was sent by a round; a flash message (type 0xBBDD) carries as its parameter the time, modulo 2^16, of the last flash request for its receiver before that round, and a pair message (0xBDBD) 0 |
| Link.HeardSoFar | pagers-common/physical.cpp:55-179 | at any moment of any interleaving, sender, air and receiver together: delivered are, in order, the messages started so far that the receiver has room for, at most the last one missing |
| Link.RecordsArrive | pagers-server/main.cpp:263-272 | records signed and encrypted, sent in any interleaving, heard with pulses and edges within their tolerances and decrypted: at any moment the first of the records sent, with all fields, at most one started record missing; all of them once silence follows |
| Link.QueueArrives | pagers-server/main.cpp:184-298 | for every run of the server from a boot with whatever saved pagers, the frames handed to the callback of the pager decode to exactly the messages owed, numbered 1, 2, 3, ..., each with a valid checksum and, if it is a flash message, the time last asked for its pager |
| Link.QueueProcessed | pagers-client/main.cpp:20-146 | behind its mailbox the main loop of the pager decodes exactly those messages if and only if each frame found the mailbox empty, and otherwise fewer |
| Link.BootOwesNothing | pagers-server/pagers/pagerlist.cpp:32-67 | a server that has loaded any file owes nothing to any pager: it starts as Link.QueueArrives asks for |
| CircularBuffer.CircularBuffer.ReadAck | pagers-common/circularbuffer.cpp:33-39 | drops a prefix of the contents, also across a negative offset, with the remainder of C |
| CircularBuffer.CircularBuffer.WriteAck | pagers-common/circularbuffer.cpp:41-44 | advances the write offset with the remainder of C; within the free space the buffer stays valid and the offset starts over at the end |
| CircularBuffer.CircularBuffer.Write | pagers-common/circularbuffer.cpp:70-81 | two copies, each as long as the continuous space; the data is appended exactly if it fits |
| CircularBuffer.CircularBuffer.WrapBuffer | pagers-common/circularbuffer.cpp:50-55 | copies the continuous part before the buffer; the contents survive exactly if they were wrapped or nothing was written since the buffer started over |
| CircularBuffer.CircularBuffer.MoveTo | pagers-common/circularbuffer.cpp:61-68 | empties this buffer by two writes to the other one, whose contents grow by exactly that data if and only if all of it fits |
| CircularBuffer.WriteAppends | pagers-common/circularbuffer.cpp:70-81 | writing appends exactly if held and new bytes stay below the size, or reach it from a negative offset |
| CircularBuffer.FullReadsEmpty | pagers-common/circularbuffer.cpp:7-11 | as many bytes as an empty buffer is long read as none |
| CircularBuffer.WrapRepeats | pagers-common/circularbuffer.cpp:50-55 | a byte at offset 1 is there twice after wrapping |
| CircularBuffer.TwoWritesAppend | pagers-common/circularbuffer.cpp:61-81 | two writes append their data exactly if it fits as a whole |
| CircularBuffer.AckDrops | pagers-common/circularbuffer.cpp:33-39 | acknowledging drops a prefix |
| CircularBuffer.WrapContents | pagers-common/circularbuffer.cpp:50-55 | what wrapping does: wrapped data stays and becomes continuous; unwrapped data is followed by everything from the start of the buffer |
| CircularBuffer.WrapKeepsContents | pagers-common/circularbuffer.cpp:50-55 | wrapping keeps the contents exactly if they are wrapped or the write offset is 0 |
| CircularBuffer.RunRefinesFifo | pagers-common/circularbuffer.cpp:7-81 | over every run of fitting writes, reads and such wraps the buffer is a FIFO queue |
| HttpServerClient.HttpServerClient.Strchrto | pagers-server/http/httpserverclient.cpp:5-13 | the first occurrence of a character, or the end |
| HttpServerClient.HttpServerClient.ParseUrlArguments | pagers-server/http/httpserverclient.cpp:18-50 | every argument up to the NUL is stored through the two static buffers; a missing value is stored as empty |
| HttpServerClient.HttpServerClient.ParseHeader | pagers-server/http/httpserverclient.cpp:52-74 | stores name and value, without one space after the colon; an empty line stores nothing |
| HttpServerClient.HttpServerClient.RecvData | pagers-server/http/httpserverclient.cpp:76-78 | appends a segment |
| HttpServerClient.HttpServerClient.RecvTarget | pagers-server/http/httpserverclient.cpp:105-127 | path to `req_path`, query to the parameters, with the NUL written over the space in place |
| HttpServerClient.HttpServerClient.RecvRequestLine | pagers-server/http/httpserverclient.cpp:88-128 | verb, path and parameters of the first line; what is left of it is still a line |
| HttpServerClient.HttpServerClient.SkipLine | pagers-server/http/httpserverclient.cpp:136-143 | consumes up to and including the newline |
| HttpServerClient.HttpServerClient.RecvLine | pagers-server/http/httpserverclient.cpp:80-146 | consumes exactly one line and returns its length, as long as two bytes are buffered; a lone first newline is read from its copy and stays |
| HttpServer.TcpClientRecv | pagers-server/http/httpserver.cpp:44-67 | after a segment the connection is the one that parsing pending bytes and segment line by line gives, and the bytes of the lines are acknowledged |
| RequestHead.SegmentationIndependent | pagers-server/http/httpserver.cpp:44-67 | after any split into segments, but for one behind a newline that opens the text, the connection is the one that parsing their concatenation gives |
| RequestHead.BytesAccounted | pagers-server/http/httpserver.cpp:49-58 | every byte is acknowledged as part of a line or pending, and what is pending holds no newline |
| RequestText.QueryRoundTrip | pagers-server/http/httpserverclient.cpp:18-50 | the text of a list of arguments, with an equals sign or without, is parsed back into them |
| RequestText.RequestLineRoundTrip | pagers-server/http/httpserverclient.cpp:80-128 | the text of a request line with any target and version is parsed back into verb, path and arguments |
| RequestText.OtherMethods | pagers-server/http/httpserverclient.cpp:102-127 | a first line that begins with neither GET nor POST leaves no valid method, no path and no parameters |
| RequestText.FieldRoundTrip | pagers-server/http/httpserverclient.cpp:52-74 | a field is stored under its name with all that stands between the colon and the end of its line, without one leading space |
| RequestText.ReadExactly | pagers-server/http/httpserverclient.cpp:60-68 | that is the value of section 5.1 of RFC 9112 exactly if no white space or one space stands before it, and none behind it |
| RequestText.HeadRoundTrip | pagers-server/http/httpserver.cpp:44-67 | the text of every head with names and stored values of at most 127 characters (sections 3 and 5 of RFC 9112), whatever its version and the white space around its field values, is parsed back whole, is ready, and leaves nothing pending |
| RequestText.NotReadyEarlier | pagers-server/http/httpserver.cpp:60-64 | no proper prefix of the head makes the request ready |
| RequestText.RequestArrives | pagers-server/http/httpserver.cpp:44-67 | however TCP splits a head, the request is ready exactly when its last byte has arrived, and then is the request sent |
| JsonText.EscapeChar | pagers-server/json/ArduinoJson.h:4027-4033 | walking the table finds the escape of a character |
| JsonText.UnescapeChar | pagers-server/json/ArduinoJson.h:4034-4043 | walking the table finds what an escape stands for |
| JsonText.EscapeInverse | pagers-server/json/ArduinoJson.h:4025-4048 | the two are inverse, but for the solidus |
| JsonText.Writer.Write | pagers-server/json/ArduinoJson.h:4502-4507 | writes a character if it fits; the buffer always holds the prefix of what was offered |
| JsonText.Writer.WriteAll | pagers-server/json/ArduinoJson.h:4508-4515 | the same for a string |
| JsonText.JsonSerializer.WriteChar | pagers-server/json/ArduinoJson.h:4376-4386 | a character, its escape, or the six characters for NUL |
| JsonText.JsonSerializer.WriteString | pagers-server/json/ArduinoJson.h:4370-4375 | a string of a given length, escaped and quoted |
| JsonText.JsonSerializer.WriteCString | pagers-server/json/ArduinoJson.h:4364-4369 | a key, up to its first NUL |
| JsonText.JsonSerializer.FillDigits | pagers-server/json/ArduinoJson.h:4428-4436 | the digits of every 64-bit number fit in the local buffer |
| JsonText.JsonSerializer.WriteSigned | pagers-server/json/ArduinoJson.h:4416-4426 | a sign and the magnitude, for the smallest number too |
| JsonText.JsonSerializer.Visit | pagers-server/json/ArduinoJson.h:4696-4772 | appends exactly the text of a value and returns the count so far |
| JsonText.JsonSerializer.VisitElements | pagers-server/json/ArduinoJson.h:4700-4712 | the elements with commas between them |
| JsonText.JsonSerializer.VisitMembers | pagers-server/json/ArduinoJson.h:4713-4727 | the members with commas between them |
| JsonText.SerializeJson | pagers-server/json/ArduinoJson.h:4645-4653 | into a buffer of any size: exactly the prefix of the text that fits, its length returned, and a NUL after it if there is room |
| JsonText.MeasureJson | pagers-server/json/ArduinoJson.h:4480-4485 | measuring returns the length of the whole text |
| JsonDeserializer.JsonDeserializer.SkipSpacesAndComments | pagers-server/json/ArduinoJson.h:6411-6469 | skips white space; the end of the text is an error that depends on whether anything was found |
| JsonDeserializer.JsonDeserializer.DecodeHex | pagers-server/json/ArduinoJson.h:6405-6410 | the digits of both cases have their values, and so have seven more characters; every other one gets a value above 15, which is rejected |
| JsonDeserializer.JsonDeserializer.ParseHex4 | pagers-server/json/ArduinoJson.h:6377-6394 | four digits, or the error at the first that is missing or wrong |
| JsonDeserializer.JsonDeserializer.ParseQuotedString | pagers-server/json/ArduinoJson.h:6243-6291 | a quoted string with escapes, surrogates and UTF-8 |
| JsonDeserializer.JsonDeserializer.ParseEscape | pagers-server/json/ArduinoJson.h:6258-6285 | what stands behind a backslash: a short escape, or a code unit that may complete a code point |
| JsonDeserializer.JsonDeserializer.ParseNonQuotedString | pagers-server/json/ArduinoJson.h:6292-6310 | a key without quotes |
| JsonDeserializer.JsonDeserializer.ParseKey | pagers-server/json/ArduinoJson.h:6228-6235 | a key in quotes or without |
| JsonDeserializer.JsonDeserializer.ParseStringValue | pagers-server/json/ArduinoJson.h:6236-6242 | a quoted string as a value |
| JsonDeserializer.JsonDeserializer.ParseMembers | pagers-server/json/ArduinoJson.h:6155-6194 | members up to the brace, or the first error |
| JsonDeserializer.JsonDeserializer.ParseNumber | pagers-server/json/ArduinoJson.h:5192-5246 | the integer path of `parseNumber` |
| JsonDeserializer.JsonDeserializer.ParseMantissa | pagers-server/json/ArduinoJson.h:5221-5233 | digits are taken until one would overflow 64 bits |
| JsonDeserializer.JsonDeserializer.ParseNumericValue | pagers-server/json/ArduinoJson.h:6330-6368 | a token of at most 63 characters as word or number; null leaves the value as it was |
| JsonDeserializer.JsonDeserializer.ParseArray | pagers-server/json/ArduinoJson.h:6085-6121 | elements up to the bracket, or the first error |
| JsonDeserializer.JsonDeserializer.ParseMember | pagers-server/json/ArduinoJson.h:6156-6183 | a member; a key that is already there keeps its slot |
| JsonDeserializer.JsonDeserializer.ParseVariant | pagers-server/json/ArduinoJson.h:6041-6069 | one value by its first character |
| JsonDeserializer.JsonDeserializer.Ask | pagers-server/json/ArduinoJson.h:6098-6174 | a string or a slot taken from the pool, or the end for lack of memory |
| JsonDeserializer.JsonDeserializer.Parse | pagers-server/json/ArduinoJson.h:6019-6027 | status and value are those of the grammar, unless a string or slot asked for on the way does not fit: then no memory; nothing may follow a number, anything may follow another value |
| JsonRoundTrip.QuotedRead | pagers-server/json/ArduinoJson.h:4364-4386 | a printed string is read back whole, whatever characters it holds |
| JsonRoundTrip.NumberRead | pagers-server/json/ArduinoJson.h:5192-5246 | every printed 64-bit integer is read back |
| JsonRoundTrip.TextRead | pagers-server/json/ArduinoJson.h:6019-6368 | the text of every float-free value nested no deeper than the limit (sections 2 to 7 of RFC 8259) is read, whatever its keys, and what is read is known |
| JsonRoundTrip.MembersKept | pagers-server/json/ArduinoJson.h:6164-6179 | reading members never gives more of them, and loses none exactly if no key repeats, up to its first NUL |
| JsonRoundTrip.KeptExactly | pagers-server/json/ArduinoJson.h:6154-6195 | what is read back is the value itself exactly if the keys of every object are distinct and free of NULs |
| JsonNesting.RoundTripExactly | pagers-server/json/ArduinoJson.h:6019-6368 | the round trip for every float-free value: too deep exactly beyond the limit, and equal exactly if nesting is within the limit and the keys of every object are distinct and free of NULs |
| JsonRepeatedKeys.LastWins | pagers-server/json/ArduinoJson.h:6164-6179 | of the members under one key the last that is not null gives the value; the key is read if any member has it |
| JsonRepeatedKeys.RepeatedKeyCollapses | pagers-server/json/ArduinoJson.h:6164-6179 | of two members with one key the second value is read, or the first if the second is null |
| JsonRepeatedKeys.NulKeyIsCut | pagers-server/json/ArduinoJson.h:4364-4369 | a key with a NUL comes back cut |
| JsonRepeatedKeys.RereadSettles | pagers-server/json/ArduinoJson.h:6154-6195 | what is read always has distinct NUL-free keys, and nests no deeper than what was printed |
| JsonRepeatedKeys.SecondRoundTrip | pagers-server/json/ArduinoJson.h:6019-6368 | what was read once is printed and read back equal |
| JsonMemory.RoomExactly | pagers-server/json/ArduinoJson.h:1150-1287 | strings to keep, keys to compare and slots, in any order, are all served exactly if there is as much room as they need behind the strings stored already; a string that is stored needs room only to be assembled |
| JsonMemory.MemoryExactly | pagers-server/json/ArduinoJson.h:6085-6195 | the same for what reading a value asks for; JSON_ARRAY_SIZE, JSON_OBJECT_SIZE and JSON_STRING_SIZE of its parts are always enough, and exactly the need if its strings and keys are all different and new |
| JsonMemory.AllKept | pagers-server/json/ArduinoJson.h:6085-6195 | if memory suffices every string and key is stored, every element and member has a slot, and nothing stored before has changed |
| JsonLoading.ValueRequested | pagers-server/json/ArduinoJson.h:6041-6195 | what the parser asks of the pool while it reads the text of a value, as a function of any text, is that list of requests |
| JsonLoading.AnyTextLoaded | pagers-server/json/ArduinoJson.h:6019-6368 | any text: memory runs out exactly if the pool has less room than what is asked for needs, behind the strings stored already; otherwise the result is the one of the grammar |
| JsonLoading.LoadedExactly | pagers-server/json/ArduinoJson.h:6019-6368 | printing any value and parsing it into a pool: the known result, too deep exactly beyond the limit, or no memory exactly if there is less room than is asked for |
| JsonSpellings.PiecesRead | pagers-server/json/ArduinoJson.h:6243-6291 | any spelling of a string, with plain bytes, short escapes, and code points as one or two escaped code units in hexadecimal digits of either case, is read as what it stands for |
| JsonSpellings.TreeRead | pagers-server/json/ArduinoJson.h:6041-6368 | any JSON text of a float-free value, with any white space between its tokens, is read within the nesting limit |
| JsonSpellings.EveryTextRead | pagers-server/json/ArduinoJson.h:6019-6368 | every JSON text (RFC 8259) of a float-free value nested no deeper than the limit is accepted, except a number with white space behind it; what is read is known, and equals what is meant exactly if the keys of every object are distinct and free of NULs |
| JsonSpellings.NumberWithSpace | pagers-server/json/ArduinoJson.h:6019-6027 | a number followed by a space is refused |
| JsonSpellings.OtherEscapesRefused | pagers-server/json/ArduinoJson.h:4034-4043 | a backslash before anything that is no escape is refused |
| JsonSpellings.AlsoAccepted | pagers-server/json/ArduinoJson.h:6228-6310 | beyond the standard, strings in single quotes are read, and keys of letters, digits and a few more characters without any |
| JsonPrinting.DecimalIsNumeral | pagers-server/json/ArduinoJson.h:4416-4440 | a number is printed in decimal digits without a leading zero |
| JsonPrinting.NumeralIsDecimal | pagers-server/json/ArduinoJson.h:4416-4440 | there is no other such numeral for it |
| JsonPrinting.NumberExactly | pagers-server/json/ArduinoJson.h:5192-5246 | a token is an integer exactly if it is a sign or none and decimal digits, and its number is an unsigned one of 64 bits, or with a minus sign one down to -2^63; leading zeros are accepted, against section 6 |
| JsonPrinting.TreeOfText | pagers-server/json/ArduinoJson.h:4696-4771 | the text of a value is a spelling without white space, in which a character is escaped exactly if it is a quotation mark, a backslash, NUL or one of the five control characters with a short escape |
| JsonPrinting.PrintedIsJson | pagers-server/json/ArduinoJson.h:4696-4771 | what is printed is a JSON text (RFC 8259) exactly if no string and no key holds another control character, and then it means the value, keys cut at their first NUL |
| JsonPrinting.BellIsRaw | pagers-server/json/ArduinoJson.h:4376-4387 | a bell is printed as it is |
| JsonCut.VariantLasts | pagers-server/json/ArduinoJson.h:6041-6069 | what the parser makes of input lasts when more follows: a value whose end it has seen, and every error but that of empty or incomplete input, unless the input ends in a sign |
| JsonCut.EmptyExactly | pagers-server/json/ArduinoJson.h:6411-6460 | input is reported as empty exactly if it is white space up to its end or a NUL |
| JsonCut.CutIsIncomplete | pagers-server/json/ArduinoJson.h:6019-6460 | the text of a value other than a number, cut anywhere, is refused: as empty if only white space is left, and otherwise as incomplete, unless it ends in a sign |
| JsonUnicode.Utf8Encodes | pagers-server/json/ArduinoJson.h:5979-6008 | the bytes appended for a code point are its UTF-8 encoding (section 3 of RFC 3629), shortest form |
| JsonUnicode.CodePointRead | pagers-server/json/ArduinoJson.h:5941-6008 | every Unicode scalar value written as one or two escapes is read as its UTF-8 encoding, whatever surrogate came before |
| MsgPackSerializer.FixEndianess | pagers-server/json/ArduinoJson.h:6622-6640 | reverses the bytes of a number |
| MsgPackSerializer.MsgPackSerializer.WriteInteger | pagers-server/json/ArduinoJson.h:7273-7277 | the big-endian bytes of a number |
| MsgPackSerializer.MsgPackSerializer.VisitUnsigned | pagers-server/json/ArduinoJson.h:7228-7254 | an unsigned number in the narrowest of five widths |
| MsgPackSerializer.MsgPackSerializer.VisitSigned | pagers-server/json/ArduinoJson.h:7199-7227 | a signed number in the narrowest of six widths |
| MsgPackSerializer.MsgPackSerializer.VisitString | pagers-server/json/ArduinoJson.h:7178-7194 | length in the narrowest of four widths, then the bytes |
| MsgPackSerializer.MsgPackSerializer.VisitArray | pagers-server/json/ArduinoJson.h:7142-7157 | length and elements |
| MsgPackSerializer.MsgPackSerializer.VisitObject | pagers-server/json/ArduinoJson.h:7158-7174 | length, and key and value of every member |
| MsgPackSerializer.MsgPackSerializer.Visit | pagers-server/json/ArduinoJson.h:7116-7279 | appends exactly the encoding of a value |
| MsgPackSerializer.MeasureMsgPack | pagers-server/json/ArduinoJson.h:7290-7292 | measuring returns the length of the whole message |
| MsgPackSerializer.SerializeMsgPack | pagers-server/json/ArduinoJson.h:4639-4644 | into a buffer of any size: exactly the prefix of the message that fits |
| MsgPackDeserializer.MsgPackDeserializer.ReadInteger | pagers-server/json/ArduinoJson.h:6844-6850 | a big-endian number, or the end of the input |
| MsgPackDeserializer.MsgPackDeserializer.SkipBytes | pagers-server/json/ArduinoJson.h:6835-6843 | skips bytes one by one, or meets the end of the input |
| MsgPackDeserializer.MsgPackDeserializer.ReadArray | pagers-server/json/ArduinoJson.h:6941-6966 | the announced number of elements, or the first error |
| MsgPackDeserializer.MsgPackDeserializer.ReadObject | pagers-server/json/ArduinoJson.h:6975-7006 | the announced number of members, each with a slot of its own |
| MsgPackDeserializer.MsgPackDeserializer.ReadKey | pagers-server/json/ArduinoJson.h:7007-7023 | a key in any string form |
| MsgPackDeserializer.MsgPackDeserializer.ParseVariant | pagers-server/json/ArduinoJson.h:6672-6815 | one value by its marker byte |
| MsgPackDeserializer.MsgPackDeserializer.Parse | pagers-server/json/ArduinoJson.h:6661-6666 | status, value and what is left are those of the decoding functions, unless a string or slot asked for on the way does not fit: then no memory |
| MsgPack.BigEndianRoundTrip | pagers-server/json/ArduinoJson.h:6844-6850 | a number that fits in a width is read back from it |
| MsgPack.RoundTrip | pagers-server/json/ArduinoJson.h:6672-7279 | decoding the encoding of a float-free value, whatever follows, consumes exactly the encoding and gives the value with numbers signed by their encoding and keys cut at their first NUL; every width boundary included |
| MsgPack.KeptExactly | pagers-server/json/ArduinoJson.h:7158-7174 | that is a numerically equal value exactly if no key of any object holds a NUL |
| MsgPack.RoundTripExactly | pagers-server/json/ArduinoJson.h:6933-7006 | too deep exactly beyond the limit; a numerically equal value comes back, and the rest is left, exactly if nesting is within the limit and no key holds a NUL |
| MsgPack.NulKeyIsCut | pagers-server/json/ArduinoJson.h:7158-7174 | a key with a NUL comes back cut |
| MsgPackLoading.EncodingRequested | pagers-server/json/ArduinoJson.h:6857-7023 | what the parser asks of the pool while it reads the encoding of a value, as a function of any message, is a list of its strings, keys and slots |
| MsgPackLoading.UnpackedExactly | pagers-server/json/ArduinoJson.h:6661-7023 | encoding any value and decoding it into a pool: the known result, too deep exactly beyond the limit, or no memory exactly if there is less room than is asked for |
| MsgPackForms.MostSignificantFirst | pagers-server/json/ArduinoJson.h:6622-6645 | the first byte of a number is its most significant one |
| MsgPackForms.FormRead | pagers-server/json/ArduinoJson.h:6672-7023 | every form the MessagePack specification has for a float-free value, of any width, is read as that value within the nesting limit |
| MsgPackForms.WrittenForm | pagers-server/json/ArduinoJson.h:7116-7279 | what is written of a value is one of its forms |
| MsgPackForms.NoShorter | pagers-server/json/ArduinoJson.h:6672-7279 | for every input at all: writing what was read takes no more bytes than reading it consumed |
| MsgPackForms.ShortestForm | pagers-server/json/ArduinoJson.h:7116-7279 | what is written of a value is as short as any input that is read as a numerically equal value |
| MsgPackForms.MessageCut | pagers-server/json/ArduinoJson.h:6672-7023 | a form cut anywhere is refused, as empty input if nothing is left of it and otherwise as incomplete |
| MemoryPool.MemoryPool.FindString | pagers-server/json/ArduinoJson.h:1252-1261 | the first copy of a string found by stepping from NUL to NUL |
| MemoryPool.MemoryPool.AllocString | pagers-server/json/ArduinoJson.h:1263-1272 | moves the left end, or marks the pool as overflowed |
| MemoryPool.MemoryPool.SaveString | pagers-server/json/ArduinoJson.h:1177-1193 | an existing copy, a new one with its NUL, or an overflow |
| MemoryPool.MemoryPool.SaveStringFromFreeZone | pagers-server/json/ArduinoJson.h:1198-1209 | commits the string in the free zone, or drops it for an existing copy |
| MemoryPool.MemoryPool.AllocVariant | pagers-server/json/ArduinoJson.h:1174-1176 | a new slot at the right end, or an overflow |
| MemoryPool.StringCopier.StartString | pagers-server/json/ArduinoJson.h:5775-5780 | takes the free zone for a new string |
| MemoryPool.StringCopier.Append | pagers-server/json/ArduinoJson.h:5792-5797 | one more character with room left for a NUL, or an overflow |
| MemoryPool.StringCopier.Save | pagers-server/json/ArduinoJson.h:5781-5785 | the assembled string is stored as if copied at once, or found |
| MemoryPool.ZonesDisjoint | pagers-server/json/ArduinoJson.h:1245-1250 | strings and slots never overlap, and neither do two slots |
| MemoryPool.FindsStored | pagers-server/json/ArduinoJson.h:1252-1261 | searching finds a copy exactly if one is stored where a string starts |
| MemoryPool.SaveReturns | pagers-server/json/ArduinoJson.h:1177-1209 | what saving returns is a stored copy; a failure leaves an overflowed pool; a string that was stored uses no memory |
| MemoryPool.RunExtends | pagers-server/json/ArduinoJson.h:1150-1287 | over every run strings are only added behind the stored ones and slots behind the others |
| MemoryPool.SavedStaysSaved | pagers-server/json/ArduinoJson.h:1150-1287 | over every run a saved string is never overwritten, and saving it again returns a copy without using memory |
| MemoryPool.SlotsAreNew | pagers-server/json/ArduinoJson.h:1273-1284 | over every run each slot handed out lies below the earlier ones and above the strings |
| MemoryPool.RunOverflows | pagers-server/json/ArduinoJson.h:1173-1287 | over every run the pool says that it has overflowed exactly if a request was refused |
| Collections.CollectionData.SetNext | pagers-server/json/ArduinoJson.h:1104-1118 | a link is the distance in slots, and it fits in 16 bits |
| Collections.CollectionData.AddSlot | pagers-server/json/ArduinoJson.h:3785-3798 | appends an empty member, or changes nothing but the overflow mark |
| Collections.CollectionData.GetPreviousSlot | pagers-server/json/ArduinoJson.h:3881-3890 | the member before a slot, found by walking from the head |
| Collections.CollectionData.RemoveSlot | pagers-server/json/ArduinoJson.h:3925-3936 | removes exactly that member; head and tail are right afterwards |
| Collections.CollectionData.AddMember | pagers-server/json/ArduinoJson.h:3802-3812 | appends a member under a stored key; if slot or key do not fit, list and contents are as before |
| Collections.CollectionData.GetSlot | pagers-server/json/ArduinoJson.h:3865-3875 | the first member with a key, or none if there is none |
| Collections.CollectionData.GetOrAddMember | pagers-server/json/ArduinoJson.h:3896-3905 | the member under a key, added behind the others if there is none; keys stay distinct unless the key holds a NUL and the part before it is a key already |
| Collections.CollectionData.RemoveMember | pagers-server/json/ArduinoJson.h:262-265 | removes the member with that key, so that none has it, and leaves the others as they were, in order; nothing changes if there is none |
| Collections.AppendRefines | pagers-server/json/ArduinoJson.h:3785-3798 | relinking tail and head appends to the sequence of members; links lead to later slots only, so no list is cyclic |
| Collections.UnlinkRefines | pagers-server/json/ArduinoJson.h:3925-3936 | relinking around a slot removes it from the sequence of members |
| Collections.OthersKept | pagers-server/json/ArduinoJson.h:3785-3936 | an operation on one list leaves every list with other members as it was |
| Collections.LinksFit | pagers-server/json/ArduinoJson.h:1104-1118 | with at most 2^15 slots no link overflows |
| Collections.KeyReadsBack | pagers-server/json/ArduinoJson.h:3865-3875 | a stored key reads back up to its first NUL |
| Leases.ExpiredExactly | pagers-server/dhcpserver/dhcpserver.c:224-225 | a lease looks expired exactly during the 2^31 ms after its end and again every 2^32 ms, across the wrap of the ticks and the rounding to 16 bits |
| Leases.DeadlineBounds | pagers-server/dhcpserver/dhcpserver.c:266 | a lease lasts a day and less than 65.536 s more |
| Leases.OldLeaseLooksValid | pagers-server/dhcpserver/dhcpserver.c:224-225 | a lease that ended 2^31 ms ago does not look expired |
| Leases.OfferIsGranted | pagers-server/dhcpserver/dhcpserver.c:210-267 | what is offered to a client is granted if requested next |
| Leases.NothingOffered | pagers-server/dhcpserver/dhcpserver.c:210-235 | no offer is made exactly if every lease is held by another client and does not look expired |
| Leases.FreedExactly | pagers-server/dhcpserver/dhcpserver.c:211-232 | what a DISCOVER does to the leases: the first available one is freed unless the client holds it or an earlier one, also if a later one of its own is offered; the others stay |
| Leases.HoldsNext | pagers-server/dhcpserver/dhcpserver.c:209-277 | no message handled within a day of the grant takes a lease away |
| Leases.LeaseIsExclusive | pagers-server/dhcpserver/dhcpserver.c:209-277 | over every run, once an address is acknowledged to a client with a non-zero address, no other client has it acknowledged for more than 86,400,000 ms (section 3.1 of RFC 2131) |
| Leases.LeaseIsNotOffered | pagers-server/dhcpserver/dhcpserver.c:210-238 | nor is it offered to another client in that time |
| Leases.HolderKeepsAddress | pagers-server/dhcpserver/dhcpserver.c:209-277 | within the day the client itself is offered an address it holds, and acknowledged that one again |
| Leases.ZeroMacHoldsNothing | pagers-server/dhcpserver/dhcpserver.c:256-265 | a client whose hardware address is zero gets a lease that the next one can take |
| DhcpServer.DhcpServer.FindOffer | pagers-server/dhcpserver/dhcpserver.c:211-235 | the scan: the own lease, else the first available one; an available lease met before the own one is freed |
| DhcpServer.DhcpServer.FindOpt | pagers-server/dhcpserver/dhcpserver.c:141-149 | `opt_find` |
| DhcpServer.DhcpServer.WriteOpt | pagers-server/dhcpserver/dhcpserver.c:151-157 | `opt_write_n` appends an option |
| DhcpServer.DhcpServer.WriteU8 | pagers-server/dhcpserver/dhcpserver.c:159-165 | `opt_write_u8` appends an option |
| DhcpServer.DhcpServer.WriteU32 | pagers-server/dhcpserver/dhcpserver.c:167-176 | `opt_write_u32` appends an option in network order |
| DhcpServer.DhcpServer.FindRequested | pagers-server/dhcpserver/dhcpserver.c:242-255 | the lease asked for, if the address is one of this server |
| DhcpServer.DhcpServer.Grant | pagers-server/dhcpserver/dhcpserver.c:256-266 | leases an address to a client unless another one holds it |
| DhcpServer.DhcpServer.Process | pagers-server/dhcpserver/dhcpserver.c:178-289 | leases and reply after any datagram: a short one and one without a known type change nothing and are not answered |
| DhcpServer.FindsEncoded | pagers-server/dhcpserver/dhcpserver.c:141-157 | searching written options for a code finds the first with it, and none exactly if there is none |
| DhcpServer.ReplyReads | pagers-server/dhcpserver/dhcpserver.c:279-284 | each option of a reply is found by its code, with its value |
| DhcpServer.LeaseTimeReads | pagers-server/dhcpserver/dhcpserver.c:283 | the lease time that a client finds in a reply and reads in network order is as many seconds as the lease granted: a day |
| DhcpServer.OfferThenAck | pagers-server/dhcpserver/dhcpserver.c:178-289 | a client that requests the address it was just offered, with whatever other options, is acknowledged that address |
| DhcpExchange.DiscoverAnswered | pagers-server/dhcpserver/dhcpserver.c:178-284 | a DISCOVER (option 53 begins with 1) is answered exactly if there is an address to offer; the client reads a boot reply (2) with its own transaction and hardware address, that address, and the options 53 = 2, 54, 3 and 6 = the server, 1 = the mask, 51 = a day |
| DhcpExchange.RequestAnswered | pagers-server/dhcpserver/dhcpserver.c:178-284 | a REQUEST (3) is answered exactly if option 50 holds one of the eight addresses and no other client holds it; the client reads the same reply with 53 = 5 and the address it asked for |
| DhcpExchange.OthersUnanswered | pagers-server/dhcpserver/dhcpserver.c:200-277 | a message without a type or with another one is not answered |
| DhcpExchange.BufferFilled | pagers-server/dhcpserver/dhcpserver.c:184-196 | the server works on the first 548 bytes of a datagram, and behind a shorter one on what the stack held |

## Left out

- Security.Power: requires the modulus to be positive and at most 3037000500 and the base non-negative, as every call in the file has it; a larger modulus overflows a signed 64-bit product, which the language leaves undefined.
- Crc.Crc16.Calc: takes the bytes themselves; a null pointer, which the source takes for no bytes, is not modelled.
- Transmission.EmittedLevels: messages have 1 to 128 bytes, because the transmit buffer has 128 and a transfer of none never ends (Transmission.TransferLength). That at least 19 interrupts happen during the sleep follows from the constants (Transmission.SleepSpansWraps) and is part of the steps.
- Reception.MessagesDelivered: a message of exactly 128 bytes is lost, because the full buffer starts over; Fitting leaves such messages out. Pulse counts are at most 170 off (Physical.ToleranceExact), each cycle has one falling edge, and the silences end frames for the shortest cycle on the receiver's clock and the jitter of its timestamps (Reception.TimingExact, Reception.SteadyExactly). The receiver starts between frames; from any other state the first message may be lost (Resynchronisation.SwitchedOn).
- Link.RecordsArrive: the radio channel loses and adds no pulses. What a pager does with a record is in Client; it acts on records that fail verification too, and it does not check sequence numbers.
- Reception.TimingExact: cycles of less than a microsecond and of more than 23 minutes on the receiver's clock are left out.
- Client.PagerClient.Turn: the clock is read once a turn, where the source reads it up to four times; the debounce and blink delays are left out.
- Pagers.PagerList.LoadFs: the number that a record without digits stands for is undefined in the source and a parameter here; so is that of a record with a prefix `0x` and no digit, where libraries differ. Read errors after opening are not modelled.
- Pagers.RunStaysSynced: storage works. If it fails the flag is cleared all the same and the file may not match (Pagers.SaveSucceedsExactly).
- MessageQueue.PagersServer.HttpPagersFlash: the pager is known; for an unknown id the source writes through a null pointer, which has no meaning to state.
- MessageQueue.PagersServer.HttpPagersPair: the flash time of a new pager is undefined in the source and a parameter here. Missing or malformed request parameters are answered before these steps and not modelled.
- CircularBuffer.CircularBuffer.WriteAck: beyond the free space, where its only caller never goes, the contents are not stated.
- CircularBuffer.CircularBuffer.WrapBuffer: requires that the continuous part fits in the hidden area and the read offset is not negative. From a negative offset the copy would overlap its source, which `memcpy` leaves undefined. On unwrapped data written since the buffer started over it does not keep the contents (CircularBuffer.WrapKeepsContents), so the refinement of a queue leaves such calls out.
- CircularBuffer.RunRefinesFifo: writes fit. A write that fills the buffer completely makes it read as empty unless the read offset is negative (CircularBuffer.WriteAppends).
- CircularBuffer: `read_reverse`, `set_read_ptr_end` and the acknowledge callback are not modelled.
- HttpServer.TcpClientRecv: the head stays shorter than the 1024-byte buffer, every line can be parsed, and the bytes received do not end with a newline that opens the head (HttpServerClient.HttpServerClient.RecvLine says what happens then). On other lines the pointers of the source leave the line or its static buffers. One segment is one pbuf.
- RequestText.WellFormed: only the two known verbs occur (any other one: RequestText.OtherMethods), lines end with a carriage return and a newline, and names and stored values have at most 127 characters. White space around a field value is stored with it, but for one leading space, against section 5.1 of RFC 9112 (RequestText.ReadExactly). Bodies are left out: a newline in one is taken for the end of a header line.
- JsonDeserializer.JsonDeserializer.Parse: the pool is a value that strings and slots are taken from; the parsed value is built beside it and not in its slots. Filters, comments, NaN and infinity are off. A number that is no 64-bit integer is reported as not modelled instead of becoming a float.
- JsonDeserializer.JsonDeserializer.ParseNumber: the float path is a single error.
- JsonSpellings.EveryTextRead: escaped surrogates that do not form a pair are left out, and so are texts that nest too deep.
- JsonText.JsonSerializer.Visit: floats, raw JSON and pretty printing are left out. Control characters other than the five with escapes are printed as they are, against section 7 of RFC 8259, and the parser takes them back.
- MsgPackSerializer.MsgPackSerializer.Visit: floats and raw data are left out.
- MsgPackDeserializer.MsgPackDeserializer.Parse: as for JSON; binary data and extensions are skipped as in the source, floats are reported as not modelled.
- MemoryPool.MemoryPool.SaveString: null strings, linked strings, shrinking and moving a pool are left out; a pool has at most 2^15 slots of 16 bytes.
- Collections.CollectionData.GetOrAddMember: keys are copied into the pool; the values below a member are the subject of JsonValue and not of the lists. Elements by index, copying and comparing documents are left out.
- DhcpServer.DhcpServer.Process: the bytes of the stack that a short datagram leaves in the buffer, and the five behind it that a search ending with a cut option reads, are a parameter. The magic cookie is not looked at, as in the source. Pads (code 0) are read as options with a length, unlike section 3.1 of RFC 2132. Printing and sending are the result.
- Leases.LeaseIsExclusive: clients have non-zero hardware addresses (Leases.ZeroMacHoldsNothing). That expired leases are reclaimed is claimed only as far as Leases.ExpiredExactly says: one that nobody asked about for 2^31 ms after its end looks valid again.
- Hardware registers, clocks, flash and file-system internals, Wi-Fi, DNS, static files, HTTP responses, scripts and pages are not part of this model; storage is a string and time a number.
