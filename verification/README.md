# Eggvault firmware: a verified model

The Eggvault is a chicken-coop door on an ESP32. Its firmware is one file, `main.cpp`, on top of
the Arduino core for the ESP32 and the Python tools that build and flash its images. This project
models the algorithms of that stack that are hard to get right and proves what they promise:

* **I2C transfers** (`I2cCommands`, `I2cFilling`, `I2cTxBytes`, `I2cPacing`, `I2cTransfer`, `I2cWire`,
  `I2cMaster`, `I2cScan`). A queue of transactions of any length is compiled, 15 commands at a time,
  into the 16 slots of the I2C peripheral, while interrupts feed its transmit FIFO and move the
  position in the queue. A run is the peripheral working off its lists, event by event, with the
  interrupts coming whenever a schedule says so. The main result tells for which queues every
  schedule puts exactly the traffic of the queue on the bus, each byte in its own transaction, and
  that for all others there is a schedule that loses commands.
* **Stream matcher** (`StreamMatcher`). The search for several strings at once in a byte stream,
  which recomputes the border of a partial match on every mismatch.
* **Bounded random numbers** (`BoundedRandom`). Multiplication and rejection, with the exact number
  of 32-bit draws behind every result.
* **SPI clock search** (`SpiClock`). Four pre-dividers per divider are tried; the result is still
  the best of all settings.
* **Firmware images and SLIP** (`ImageFormat`, `ImageLayout`, `ImageWriter`, `ImageLoader`, `Slip`).
  Placing flash segments modulo 64K, splitting RAM segments to fill the gaps, reading the image
  back, and the framing of the packets on the serial line.
* **APB callbacks** (`ApbCallbacks`). A doubly linked list on the heap that is walked in both
  directions.
* **Circular buffer** (`CircularBuffer`). A ring of memory as a bounded FIFO queue.
* **Door controller** (`DoorController`, `LightDebounce`, `Eggvault`). The motor loop for all sensor,
  button and clock readings, and the light threshold that is counted across deep sleep.
* **Partition tables** (`PartitionTable`, `PartitionBinary`). Laying out a table and its binary form.

`Sequences`, `Sorting`, `Arithmetic`, `LittleEndian` and `Options` hold what several modules need.
Classes stand for what the sources update in place: queue elements and command slots, matcher
targets, list nodes, the ring, image segments and the image file, table entries, the door's global
variables. Each method is tied to a function or predicate on values, and the properties are lemmas
about those.

Verify with `dafny verify dfyconfig.toml`.

## What the proofs found

These properties do not hold without a condition. The exact condition is proved for each of them, and
where an input is named, that it fails.

* `fillCmdQueue` never looks behind `queuePos`, and `fillTxFifo` moves `queuePos` to the first read
  as soon as the bytes in front of it fit the FIFO. If a write in front of that read still waits for
  its commands then, they are never issued. Whether this happens can be told from the queue: at the
  end of every list either no byte of these writes is left, or at least 31 (`KeepsUp`). Then all is
  well whatever the interrupts do; otherwise a prompt transmit interrupt loses exactly the commands
  that are missing at that point (`Transfer`), and the read is addressed with a byte of the lost
  write (`WrongAddress`). Writes whose commands fit one list always keep up, and only these if their
  bytes fit the FIFO (`ShortWrites`); up to seven writes without payload do, eight do not
  (`ProbesKeepUp`). `ScanThenRead` is such a run from beginning to end: a search for eight or more
  devices in one queue with a read.
* `cbuf::resize` to one byte less than `available()` is accepted and leaves no free cell, with `_end`
  behind the memory: the buffer stays valid iff (request + 1) mod 2^32 differs from `available()`
  (`Resize`, with the case in `ResizeTooTight`).
* `get_alignment_data_needed` returns 0 when the gap has exactly the 8 bytes of a header and crosses a
  page boundary, and the assertion after it fails, exactly then (`PadCloses`, `GapInBytes`, `PlaceOne`);
  `GapOfEight` gives two segments that cannot be placed. The padding it asks for is a page longer than
  necessary iff the address lies at least 16 bytes further in its page than the position in the file (`GapInBytes`).
* The image loader refuses more than 16 segments, the writer counts up to 255 (`SaveLoad`, with an
  image of 17 words in `SeventeenSegments`).
* `from_csv` can hand out bytes twice when a negative size ends a partition below its own offset, and
  only then (`FixedUpExactly`, `NegativeSizeOverlaps`), and `flash_size` misses the end of the table when a
  partition without bytes shares the largest offset with a longer one (`FlashSizeExact`,
  `ZeroSizeHidesEnd`). Names longer than 16 bytes or with a NUL come back shortened (`NameSurvives`).
* In the pass of the motor loop that sees the goal, the motor is turned away from it unless the door
  was closing fully; only the heads of passes are sure to point to the goal (`TurnedAway`).
* A light debounce count above 16 can never be met, since four bits survive the sleep
  (`NeverMoves`, `CountCanBeMet`). The threshold itself, `nextLux`, is not among the values that are
  restored after a deep sleep, so the readings below come with whatever threshold is in force at that
  wakeup.

One result has a range that no caller leaves: `spiFrequencyToClockDiv` converts the wanted frequency to
a signed value, and its search finds the best setting iff the frequency is below 2^31
(`FrequencyToClockDiv`). The APB clock is at most 80 MHz, and a frequency from there on never gets to
the search. For the two halves of the clock period, the comments at the register (lines 1036 and 1037 of
`esp32-hal-spi.c`) ask for other counts than the code sets (line 1088); the model follows the code.

## Model

| member | source | states |
|---|---|---|
| I2cMaster.QueueElement.constructor | src/arduino-esp32/arduino-esp32-master/cores/esp32/esp32-hal-i2c.c:1036-1058 | a queued element has the payload, direction and STOP that were asked for, nothing sent, all its bytes needed, and its address in the wire form that lines 1185-1199 give it |
| I2cMaster.I2c.AddQueue | src/arduino-esp32/arduino-esp32-master/cores/esp32/esp32-hal-i2c.c:1027-1085 | appends one fresh element with the payload, direction and STOP that were asked for, and leaves the others as they are |
| I2cMaster.I2c.AddQueueRead | src/arduino-esp32/arduino-esp32-master/cores/esp32/esp32-hal-i2c.c:1092-1111 | a read from a 10-bit address is queued as an empty write of that address and a read of its first byte; any other read as one element |
| I2cMaster.I2c.AddHeader | src/arduino-esp32/arduino-esp32-master/cores/esp32/esp32-hal-i2c.c:519-536 | RSTART only below slot 14, and the WRITE of the address behind it; commands plus pending traffic stay the same |
| I2cMaster.I2c.AddBlock | src/arduino-esp32/arduino-esp32-master/cores/esp32/esp32-hal-i2c.c:559-567 | a block of at most 255 bytes that never contains the last byte of a read |
| I2cMaster.I2c.AddData | src/arduino-esp32/arduino-esp32-master/cores/esp32/esp32-hal-i2c.c:556-581 | blocks until the data is complete or slot 14 is taken, exactly as many as fit, with the last byte of a read apart; dataCmdSent iff no byte is left; listed plus pending traffic unchanged |
| I2cMaster.I2c.AddLastRead | src/arduino-esp32/arduino-esp32-master/cores/esp32/esp32-hal-i2c.c:571-578 | the last byte of a read is a block of its own and the only one answered with NAK |
| I2cMaster.I2c.AddStop | src/arduino-esp32/arduino-esp32-master/cores/esp32/esp32-hal-i2c.c:583-591 | STOP iff the element asks for it and has not had it; the element counts as done either way |
| I2cMaster.I2c.Stretch | src/arduino-esp32/arduino-esp32-master/cores/esp32/esp32-hal-i2c.c:594-619 | the tail moves up by one slot, and the last block, found from the end, leaves a copy of itself with no bytes in front of it |
| I2cCommands.StretchedEvents | src/arduino-esp32/arduino-esp32-master/cores/esp32/esp32-hal-i2c.c:594-619 | stretching inserts one command and keeps the bus events iff there is a block to stretch (or the doubled command means nothing) |
| I2cCommands.StretchedBody | src/arduino-esp32/arduino-esp32-master/cores/esp32/esp32-hal-i2c.c:594-619 | a stretched list is still a body: every RSTART directly before a WRITE |
| I2cCommands.BodyEndsWithBlock | src/arduino-esp32/arduino-esp32-master/cores/esp32/esp32-hal-i2c.c:594-619 | a full list of 14 slots always ends with a READ or WRITE, so stretching always finds one |
| I2cMaster.I2c.AddEnd | src/arduino-esp32/arduino-esp32-master/cores/esp32/esp32-hal-i2c.c:622-627 | slot 15 gets END; the list is terminated and contains STOP iff slot 14 does |
| I2cMaster.I2c.AddElement | src/arduino-esp32/arduino-esp32-master/cores/esp32/esp32-hal-i2c.c:519-628 | one pass for one element: the list stays a body or becomes terminated, the work shrinks, listed plus pending traffic is unchanged, and a write without STOP gets exactly what Spend says |
| I2cCommands.TerminatedShape | src/arduino-esp32/arduino-esp32-master/cores/esp32/esp32-hal-i2c.c:538-554 | END stands in slot 15 only, slot 15 holds nothing else, RSTART is always followed by WRITE, and STOP is last or in slot 14; byte counts fit eight bits, only WRITE checks the acknowledge bit and only READ may answer with NAK |
| I2cCommands.ExecutedTerminated | src/arduino-esp32/arduino-esp32-master/cores/esp32/esp32-hal-i2c.c:538-554 | the peripheral, which pauses at END, stops after STOP and ignores what follows, produces exactly the events of a terminated list |
| I2cFilling.FillingStep | src/arduino-esp32/arduino-esp32-master/cores/esp32/esp32-hal-i2c.c:630-639 | a pass that does not fill the list has finished its element; the filling goes on with the next one or is complete |
| I2cMaster.I2c.FirstUnsent | src/arduino-esp32/arduino-esp32-master/cores/esp32/esp32-hal-i2c.c:508-516 | finds the first element from queuePos on that still needs commands |
| I2cMaster.I2c.FillCmdQueue | src/arduino-esp32/arduino-esp32-master/cores/esp32/esp32-hal-i2c.c:494-650 | fills the list from queuePos on: terminated if full, STOP in it iff the queue is complete, elements before queuePos untouched, none begun before the one in front is done, listed plus pending traffic equal to what was pending, the writes in front of the first read exactly one list further, and progress; both interrupt enables; the loop terminates |
| I2cCommands.PendingInitially | src/arduino-esp32/arduino-esp32-master/cores/esp32/esp32-hal-i2c.c:1036-1058 | a freshly queued element has its whole traffic pending |
| I2cCommands.TrafficAt | src/arduino-esp32/arduino-esp32-master/cores/esp32/esp32-hal-i2c.c:519-591 | event by event: START, the address bytes, the payload with every acknowledge of a write checked and NAK for the last byte of a read only, STOP if it is wanted |
| I2cFilling.BlocksExact | src/arduino-esp32/arduino-esp32-master/cores/esp32/esp32-hal-i2c.c:559-567 | blocks take up to 255 bytes each, and no more of them than needed |
| I2cCommands.BlockStep | src/arduino-esp32/arduino-esp32-master/cores/esp32/esp32-hal-i2c.c:559-567 | a block moves exactly its bytes from pending to listed, with ACK on every read byte |
| I2cCommands.NakStep | src/arduino-esp32/arduino-esp32-master/cores/esp32/esp32-hal-i2c.c:571-578 | the final read command moves the NAKed byte from pending to listed |
| I2cCommands.HeaderStep | src/arduino-esp32/arduino-esp32-master/cores/esp32/esp32-hal-i2c.c:522-536 | START and address together move the header from pending to listed |
| I2cFilling.CompletedTraffic | src/arduino-esp32/arduino-esp32-master/cores/esp32/esp32-hal-i2c.c:494-516 | a list that completes the queue from queuePos on carries all pending traffic iff every element before queuePos has been served |
| I2cMaster.I2c.FeedAddress | src/arduino-esp32/arduino-esp32-master/cores/esp32/esp32-hal-i2c.c:666-699 | address bytes in order, high byte first, as far as the FIFO takes them |
| I2cMaster.I2c.FeedData | src/arduino-esp32/arduino-esp32-master/cores/esp32/esp32-hal-i2c.c:700-714 | payload of a write after its address, never above 32 bytes in the FIFO |
| I2cMaster.I2c.NoteRead | src/arduino-esp32/arduino-esp32-master/cores/esp32/esp32-hal-i2c.c:715-721 | queuePos moves to the first read met and not beyond |
| I2cMaster.I2c.FillTxFifo | src/arduino-esp32/arduino-esp32-master/cores/esp32/esp32-hal-i2c.c:652-741 | nothing is skipped or pushed twice, no element begun before the one in front is pushed, the FIFO never exceeds 32 and ends nearly full or with nothing pending; queuePos moves to the next read iff the bus has taken so much that the bytes before this read fit the FIFO; the interrupt is disabled only when nothing is pending |
| I2cMaster.I2c.Feed | src/arduino-esp32/arduino-esp32-master/cores/esp32/esp32-hal-i2c.c:652-741 | over any number of interrupts and drains, and whatever other handlers do to queuePos over pushed elements, what was pushed is a prefix of the bytes of the queue, all of it once the interrupt is disabled, and drains that sum up to the bytes of the queue disable it |
| I2cTxBytes.QueueStep | src/arduino-esp32/arduino-esp32-master/cores/esp32/esp32-hal-i2c.c:662-735 | progress within one element is progress within the whole queue |
| I2cTxBytes.PushedIsPrefix | src/arduino-esp32/arduino-esp32-master/cores/esp32/esp32-hal-i2c.c:652-741 | pushed bytes are a prefix of all bytes, and all of them iff nothing is pending |
| I2cTxBytes.SevenBitAddress | src/arduino-esp32/arduino-esp32-master/cores/esp32/esp32-hal-i2c.c:1193-1197 | a 7-bit address reaches the bus as one byte with the direction in its lowest bit, as UM10204, section 3.1.10, asks for |
| I2cTxBytes.TenBitAddress | src/arduino-esp32/arduino-esp32-master/cores/esp32/esp32-hal-i2c.c:1189-1192 | a 10-bit address reaches the bus as 0b11110, its upper bits and the direction, then its lower bits, as UM10204, section 3.1.11, asks for |
| I2cTxBytes.TenBitRead | src/arduino-esp32/arduino-esp32-master/cores/esp32/esp32-hal-i2c.c:1092-1111 | a 10-bit read addresses the device again with the first of these bytes |
| I2cPacing.AfterListShrinks | src/arduino-esp32/arduino-esp32-master/cores/esp32/esp32-hal-i2c.c:518-641 | a list brings writes forward, and makes progress while one of their bytes is left |
| I2cPacing.ShortWrites | src/arduino-esp32/arduino-esp32-master/cores/esp32/esp32-hal-i2c.c:518-641 | writes whose commands fit one list keep up; if their bytes fit the FIFO, only these do |
| I2cTransfer.FillConserves | src/arduino-esp32/arduino-esp32-master/cores/esp32/esp32-hal-i2c.c:1002-1008 | a refill takes its events out of what is pending from queuePos on |
| I2cTransfer.OvertakeConserves | src/arduino-esp32/arduino-esp32-master/cores/esp32/esp32-hal-i2c.c:715-721 | when queuePos leaves the start, what is pending in front of it is cut out of the traffic, and nothing else |
| I2cTransfer.FrontBalance | src/arduino-esp32/arduino-esp32-master/cores/esp32/esp32-hal-i2c.c:494-741 | the bytes of the writes in front of the first read are those the bus has taken, those of the current list, and those without a command |
| I2cTransfer.FeedOnTime | src/arduino-esp32/arduino-esp32-master/cores/esp32/esp32-hal-i2c.c:715-721 | queuePos never leaves writes that are in time before their last command has been issued |
| I2cTransfer.FeedLate | src/arduino-esp32/arduino-esp32-master/cores/esp32/esp32-hal-i2c.c:715-721 | and leaves writes that are not, exactly where Overtaken says |
| I2cTransfer.NoStarving | src/arduino-esp32/arduino-esp32-master/cores/esp32/esp32-hal-i2c.c:736-738 | while the bus waits for a byte, one is still to be pushed: the transmit interrupt is enabled when it is needed |
| I2cTransfer.ReceiveMoves | src/arduino-esp32/arduino-esp32-master/cores/esp32/esp32-hal-i2c.c:748-757 | as long as nothing was lost, there is a read that the last received byte belongs to: the elements in front of it bring fewer bytes, those up to it at least as many; and all elements in front of it have had their commands and pushed their bytes |
| I2cTransfer.ReadingBehind | src/arduino-esp32/arduino-esp32-master/cores/esp32/esp32-hal-i2c.c:748-757 | the search for that read stops at it, and at the end of the queue iff the queue brings fewer bytes |
| I2cTransfer.BringsOnce | src/arduino-esp32/arduino-esp32-master/cores/esp32/esp32-hal-i2c.c:748-757 | a byte belongs to one read only |
| I2cWire.QueueOnWire | src/arduino-esp32/arduino-esp32-master/cores/esp32/esp32-hal-i2c.c:652-741 | the events of a queue, with each byte sent taken from the FIFO, are its transactions: START, its own address, its own payload, STOP |
| I2cWire.WrongAddress | src/arduino-esp32/arduino-esp32-master/cores/esp32/esp32-hal-i2c.c:715-721 | where commands were lost, the first read is addressed with a byte that belongs to one of the lost writes |
| I2cMaster.I2c.StartList | src/arduino-esp32/arduino-esp32-master/cores/esp32/esp32-hal-i2c.c:1002-1008 | a filled list is started: its events are what the peripheral will do, it stops iff the queue is complete from queuePos on, and otherwise END detection is enabled |
| I2cMaster.I2c.TxInterrupt | src/arduino-esp32/arduino-esp32-master/cores/esp32/esp32-hal-i2c.c:935-938 | the transmit interrupt keeps the run going: what is in time stays so, what will be lost stays the same; the bus finds a byte, and the FIFO holds at least 31 bytes or nothing is left to be pushed |
| I2cMaster.I2c.RxInterrupt | src/arduino-esp32/arduino-esp32-master/cores/esp32/esp32-hal-i2c.c:940-946 | the receive interrupt moves queuePos forward to the read that the last received byte belongs to, or not at all, and nothing hinders it unless commands were lost |
| I2cMaster.I2c.BusStep | src/arduino-esp32/arduino-esp32-master/cores/esp32/esp32-hal-i2c.c:918-1021 | one event of the bus, with the interrupts before and behind it |
| I2cMaster.I2c.Transfer | src/arduino-esp32/arduino-esp32-master/cores/esp32/esp32-hal-i2c.c:1200-1279 | for every schedule of the interrupts the bus shows what the issued lists do, all of them terminated and only the last one with STOP, and this is the traffic of the queue with at most one piece cut out; if the writes in front of the first read keep up it is the whole traffic and every byte is in its transaction; otherwise a prompt transmit interrupt cuts out exactly the commands that Overtaken tells; the transfer terminates |
| I2cScan.ProbesKeepUp | src/arduino-esp32/arduino-esp32-master/cores/esp32/esp32-hal-i2c.c:518-641 | writes without payload keep up iff there are at most seven |
| I2cScan.ScanThenRead | src/arduino-esp32/arduino-esp32-master/cores/esp32/esp32-hal-i2c.c:1200-1279 | eight to 37 writes without payload and a read: only seven devices are addressed, and the read carries the address byte of the eighth write |
| StreamMatcher.BordersStep | src/arduino-esp32/arduino-esp32-master/cores/esp32/Stream.cpp:137-142 | a longer prefix ends the extended stream iff the shorter one ended the stream and the next byte fits |
| StreamMatcher.BorderOfBorder | src/arduino-esp32/arduino-esp32-master/cores/esp32/Stream.cpp:164-170 | inside a partial match, a shorter prefix ends the stream iff it is a border of the matched part |
| StreamMatcher.LongestGrows | src/arduino-esp32/arduino-esp32-master/cores/esp32/Stream.cpp:137-142 | a byte that fits makes the longest match longer by one |
| StreamMatcher.LongestShrinks | src/arduino-esp32/arduino-esp32-master/cores/esp32/Stream.cpp:148-155 | after a byte that does not fit no longer prefix can end the stream |
| StreamMatcher.Target.Overlaps | src/arduino-esp32/arduino-esp32-master/cores/esp32/Stream.cpp:165-170 | compares a prefix of the matched part with the part that starts diff later |
| StreamMatcher.Target.WalkBack | src/arduino-esp32/arduino-esp32-master/cores/esp32/Stream.cpp:151-180 | the walk back terminates with index the length of the longest prefix that ends the stream, the new byte included |
| StreamMatcher.Target.Feed | src/arduino-esp32/arduino-esp32-master/cores/esp32/Stream.cpp:135-180 | true iff the byte completes an occurrence; otherwise index is exact again |
| StreamMatcher.Stream.FeedTargets | src/arduino-esp32/arduino-esp32-master/cores/esp32/Stream.cpp:135-181 | the lowest target that is completed by the byte, or exact indices for all |
| StreamMatcher.Stream.FindMulti | src/arduino-esp32/arduino-esp32-master/cores/esp32/Stream.cpp:122-185 | the target whose first occurrence ends earliest, the lowest index on ties, with the stream read exactly through it; -1 iff there is none, with the stream read to its end |
| StreamMatcher.FirstHitIsUnique | src/arduino-esp32/arduino-esp32-master/cores/esp32/Stream.cpp:122-185 | that specification determines position and target |
| StreamMatcher.Stream.FindUntil | src/arduino-esp32/arduino-esp32-master/cores/esp32/Stream.cpp:111-120 | true iff the first occurrence of the target ends no later than the first one of the terminator; the stream is read exactly through the one that came first, or to its end if there is neither |
| StreamMatcher.Stream.Find | src/arduino-esp32/arduino-esp32-master/cores/esp32/Stream.cpp:90-100 | true iff the target occurs in the rest of the stream; the stream is read exactly through its first occurrence, or to its end |
| BoundedRandom.AcceptedWindow | src/arduino-esp32/arduino-esp32-master/cores/esp32/WMath.cpp:41-57 | an accepted draw for result r is one whose product lies in a window of floor(2^32/howbig) multiples |
| BoundedRandom.PreimageIsInterval | src/arduino-esp32/arduino-esp32-master/cores/esp32/WMath.cpp:41-57 | the accepted draws for a result are consecutive numbers |
| BoundedRandom.Uniform | src/arduino-esp32/arduino-esp32-master/cores/esp32/WMath.cpp:39-58 | every result below howbig has exactly floor(2^32/howbig) accepted draws |
| BoundedRandom.ResultInRange | src/arduino-esp32/arduino-esp32-master/cores/esp32/WMath.cpp:57-57 | no draw leads outside the range |
| BoundedRandom.Generator.Threshold | src/arduino-esp32/arduino-esp32-master/cores/esp32/WMath.cpp:45-50 | the negation in 32 bits and the two shortcuts compute 2^32 mod howbig |
| BoundedRandom.Generator.Random | src/arduino-esp32/arduino-esp32-master/cores/esp32/WMath.cpp:39-58 | returns the result of the first accepted draw and skips only rejected ones, also where the threshold is not computed |
| BoundedRandom.Generator.RandomBetween | src/arduino-esp32/arduino-esp32-master/cores/esp32/WMath.cpp:60-67 | a number in the range, from an accepted draw for its distance to the lower bound |
| SpiClock.RegisterRoundTrip | src/arduino-esp32/arduino-esp32-master/cores/esp32/esp32-hal-spi.c:1033-1042 | the fields of the clock register are packed without loss into 32 bits |
| SpiClock.DividerBits | src/arduino-esp32/arduino-esp32-master/cores/esp32/esp32-hal-spi.c:1033-1051 | the clock of a register value is the APB clock, divided by one more than its bits 18 to 30 and one more than its bits 12 to 17 |
| SpiClock.AroundQuotient | src/arduino-esp32/arduino-esp32-master/cores/esp32/esp32-hal-spi.c:1079-1086 | from the quotient on the clock is below the wanted frequency, before it not |
| SpiClock.TwoCandidatesSuffice | src/arduino-esp32/arduino-esp32-master/cores/esp32/esp32-hal-spi.c:1079-1098 | for one divider, a pre-divider next to the quotient is exact or the best below, clamping included |
| SpiClock.FreqMonotone | src/arduino-esp32/arduino-esp32-master/cores/esp32/esp32-hal-spi.c:1044-1044 | a larger pre-divider never gives a faster clock |
| SpiClock.QuotientFits | src/arduino-esp32/arduino-esp32-master/cores/esp32/esp32-hal-spi.c:1080-1080 | the quotient fits the signed variable it is stored in |
| SpiClock.SearchPre | src/arduino-esp32/arduino-esp32-master/cores/esp32/esp32-hal-spi.c:1075-1099 | the inner loop: an exact hit, or the best frequency below over all pre-dividers of this divider; a new setting has the divided clock, low for half of its period; nothing if the wanted frequency is negative when signed |
| SpiClock.FrequencyToClockDiv | src/arduino-esp32/arduino-esp32-master/cores/esp32/esp32-hal-spi.c:1053-1106 | no setting with pre-divider 0..8191 and divider 1..63 comes closer from below, iff the wanted frequency is below 2^31, and no smaller divider comes as close; the clock is divided, with the lower count half of the divider and the upper one 0; both early exits with their values |
| ImageLayout.PadCloses | src/arduino-esp32/arduino-esp32-master/tools/esptool.py:1978-1993 | no block is asked for iff the data would be aligned or the computed gap is exactly 8 bytes; a block of the computed size aligns the data |
| ImageLayout.GapInBytes | src/arduino-esp32/arduino-esp32-master/tools/esptool.py:1978-1993 | the same in bytes: when the data is aligned, which gap fails, that the block closes the gap, and when it is a page longer than necessary |
| ImageLayout.FlashTailSuffices | src/arduino-esp32/arduino-esp32-master/tools/esptool.py:2066-2074 | the last page of a flash segment always holds at least 0x24 bytes, and zeros are added only up to there |
| ImageLayout.FlashAlignedAppend | src/arduino-esp32/arduino-esp32-master/tools/esptool.py:2009-2014 | a block behind the others keeps every flash segment where it is mapped |
| ImageLayout.PlacePadding | src/arduino-esp32/arduino-esp32-master/tools/esptool.py:2005-2008 | a block of zeros of the needed size, where no RAM segment serves, keeps layout and plan |
| ImageLayout.PlaceRam | src/arduino-esp32/arduino-esp32-master/tools/esptool.py:2001-2008 | a piece of the first RAM segment keeps the layout: pieces plus the rest still load the same bytes at the same addresses |
| ImageLayout.PlaceFlash | src/arduino-esp32/arduino-esp32-master/tools/esptool.py:2009-2014 | an aligned flash segment is placed whole, with zeros behind it at most |
| ImageLayout.PlanIsThrifty | src/arduino-esp32/arduino-esp32-master/tools/esptool.py:2000-2008 | padding with more than 8 zeros is never written while there is RAM data left |
| ImageLayout.RamPiece | src/arduino-esp32/arduino-esp32-master/tools/esptool.py:2000-2008 | a RAM segment is taken apart only where its first part closes the gap; the rest keeps its address |
| ImageWriter.ImageSegment.SplitImage | src/arduino-esp32/arduino-esp32-master/tools/esptool.py:1586-1596 | cuts off the first bytes; the rest moves up in address |
| ImageWriter.SplitCells | src/arduino-esp32/arduino-esp32-master/tools/esptool.py:1586-1596 | piece and rest load exactly the bytes of the segment at their addresses |
| ImageWriter.PagesAllDistinct | src/arduino-esp32/arduino-esp32-master/tools/esptool.py:1965-1976 | different pages for neighbours mean different pages for any two sorted flash segments |
| ImageWriter.Selected | src/arduino-esp32/arduino-esp32-master/tools/esptool.py:1939-1963 | every segment is either mapped to flash, by the two address ranges, or loaded to RAM; both selections together are the segments, in the order of their addresses, equal addresses in their old order |
| ImageWriter.CheckPages | src/arduino-esp32/arduino-esp32-master/tools/esptool.py:1969-1976 | the check finds two neighbours in one 64K page iff there are any |
| ImageWriter.ImageWriter.SaveSegment | src/arduino-esp32/arduino-esp32-master/tools/esptool.py:1681-1687 | appends header and data, and the running checksum stays that of all segments |
| ImageWriter.ImageWriter.PlacePad | src/arduino-esp32/arduino-esp32-master/tools/esptool.py:2000-2008 | a block before a flash segment comes from the RAM segments if it is larger than a header, else from zeros; it uses up a RAM segment or closes the gap |
| ImageWriter.ImageWriter.PlaceOne | src/arduino-esp32/arduino-esp32-master/tools/esptool.py:1997-2014 | one pass of the placement loop; the assertion fails exactly for a computed gap of 8 |
| ImageWriter.ImageWriter.PlaceAll | src/arduino-esp32/arduino-esp32-master/tools/esptool.py:1997-2014 | the placement loop terminates with every flash segment placed, or at a computed gap of exactly 8 |
| ImageWriter.ImageWriter.SaveRest | src/arduino-esp32/arduino-esp32-master/tools/esptool.py:2016-2019 | with the RAM segments that are left the layout is complete |
| ImageWriter.ImageWriter.SecurePadding | src/arduino-esp32/arduino-esp32-master/tools/esptool.py:2021-2039 | the padding before signing; image and reserved tail will end on a 64K boundary |
| ImageWriter.SecurePadEndsPage | src/arduino-esp32/arduino-esp32-master/tools/esptool.py:2026-2046 | the padding length is right for both secure boot schemes |
| ImageWriter.ImageWriter.Finish | src/arduino-esp32/arduino-esp32-master/tools/esptool.py:2041-2054 | checksum in the last byte of a block of 16, final segment count in the header |
| ImageLayout.OnePlan | src/arduino-esp32/arduino-esp32-master/tools/esptool.py:1995-2019 | the segments determine the blocks and where the placement ends: there is one complete or stuck plan |
| ImageWriter.OneImage | src/arduino-esp32/arduino-esp32-master/tools/esptool.py:1995-2039 | there is one sequence of blocks for given segments, and none if the placement gets stuck |
| ImageWriter.OneOutcome | src/arduino-esp32/arduino-esp32-master/tools/esptool.py:1950-2064 | there is one image for given segments, and an image excludes a failed assertion and an overflowing count |
| ImageWriter.GapOfEight | src/arduino-esp32/arduino-esp32-master/tools/esptool.py:1989-2011 | two word-sized flash segments in different pages that cannot be placed |
| ImageWriter.Save | src/arduino-esp32/arduino-esp32-master/tools/esptool.py:1950-2064 | the segments are split by the two flash ranges into two ordered selections that together are all of them; a saved image has every flash segment whole and aligned modulo 64K, all bytes of the others at their addresses, only zeros besides, the right count, checksum and digest, and the length that secure boot needs; its blocks are those of the plan; each error for its cause, the assertion only where the plan is stuck |
| ImageWriter.CarriesAll | src/arduino-esp32/arduino-esp32-master/tools/esptool.py:1950-2064 | every segment with a flash address is a block at a file offset congruent to it modulo 64K, and every byte of every other segment is loaded to its address |
| ImageWriter.FileLayout | src/arduino-esp32/arduino-esp32-master/tools/esptool.py:1706-1712 | byte by byte: magic, count, modes, entry point, extended header with the digest flag last, segments, zeros, and the checksum as the last byte of a multiple of 16 |
| ImageFormat.SegmentLayout | src/arduino-esp32/arduino-esp32-master/tools/esptool.py:1681-1687 | address and length of a segment, least significant byte first, then its data |
| ImageFormat.BodyAt | src/arduino-esp32/arduino-esp32-master/tools/esptool.py:1681-1687 | every segment stands directly behind those in front of it |
| ImageFormat.XorBit | src/arduino-esp32/arduino-esp32-master/tools/esptool.py:349-356 | exclusive or, bit by bit |
| ImageFormat.SegmentsChecksumBit | src/arduino-esp32/arduino-esp32-master/tools/esptool.py:349-356 | each bit of the checksum is the parity of this bit over all data bytes and 0xef |
| Sorting.SortSorts | src/arduino-esp32/arduino-esp32-master/tools/esptool.py:1962-1963 | sorting by a key yields an ordered sequence |
| Sorting.SortPermutes | src/arduino-esp32/arduino-esp32-master/tools/esptool.py:1962-1963 | sorting keeps the same elements |
| Sorting.SortStable | src/arduino-esp32/arduino-esp32-master/tools/esptool.py:1962-1963 | elements with the same key keep their order |
| ImageFormat.ChecksumConcat | src/arduino-esp32/arduino-esp32-master/tools/esptool.py:1681-1687 | the checksum can be computed piece by piece |
| ImageFormat.AllPaddedChecksum | src/arduino-esp32/arduino-esp32-master/tools/esptool.py:1696-1704 | padding segments to whole words does not change the checksum |
| ImageLoader.Load | src/arduino-esp32/arduino-esp32-master/tools/esptool.py:1919-1937 | the loader: headers, segments, checksum, digest, at most 16 segments, an error for a premature end |
| ImageLoader.LoadExactly | src/arduino-esp32/arduino-esp32-master/tools/esptool.py:1919-1937 | a file is accepted iff magic and digest flag are right, at most 16 segments are announced, all of them are complete and the checksum is inside the file |
| ImageLoader.LoadResults | src/arduino-esp32/arduino-esp32-master/tools/esptool.py:1919-1937 | what is loaded from an accepted file, byte by byte: header fields, every segment with its address, data and padding, checksum and both digests |
| ImageLoader.LoadEncoded | src/arduino-esp32/arduino-esp32-master/tools/esptool.py:1641-1651 | a written segment is read back, padded to whole words |
| ImageLoader.LoadBody | src/arduino-esp32/arduino-esp32-master/tools/esptool.py:1925-1926 | all written segments are read back in order |
| ImageLoader.LoadHeaderBytes | src/arduino-esp32/arduino-esp32-master/tools/esptool.py:2076-2102 | the header is read back, including the digest flag |
| ImageLoader.SaveLoad | src/arduino-esp32/arduino-esp32-master/tools/esptool.py:1919-1937 | loading a written image yields its segments in order, the stored checksum equals the recomputed one and the digests agree, iff there are at most 16 segments |
| ImageLoader.SeventeenSegments | src/arduino-esp32/arduino-esp32-master/tools/esptool.py:1919-1937 | an image of 17 segments that the loader refuses |
| ImageLoader.SavedSegmentsReturn | src/arduino-esp32/arduino-esp32-master/tools/esptool.py:1950-2064 | for whole words, the segments loaded from a saved image are the very blocks that were written |
| LittleEndian.WordRoundTrip | src/arduino-esp32/arduino-esp32-master/tools/esptool.py:1684-1684 | 32-bit words survive packing |
| LittleEndian.WordStored | src/arduino-esp32/arduino-esp32-master/tools/esptool.py:1684-1684 | the least significant byte comes first |
| Slip.TwoReplacesEscape | src/arduino-esp32/arduino-esp32-master/tools/esptool.py:328-331 | the two replacements in sequence escape every byte exactly once |
| Slip.NoEndInside | src/arduino-esp32/arduino-esp32-master/tools/esptool.py:328-331 | an escaped body contains no 0xC0 |
| Slip.EscapeAppend | src/arduino-esp32/arduino-esp32-master/tools/esptool.py:328-331 | 0xC0 becomes 0xDB 0xDC, 0xDB becomes 0xDB 0xDD, any other byte stays |
| Slip.FrameIs | src/arduino-esp32/arduino-esp32-master/tools/esptool.py:328-331 | a packet stands between two bytes 0xC0 that do not occur in it |
| Slip.RunEscaped | src/arduino-esp32/arduino-esp32-master/tools/esptool.py:2247-2264 | inside a packet an escaped body is read as the bytes it stands for |
| Slip.RunFrame | src/arduino-esp32/arduino-esp32-master/tools/esptool.py:2240-2264 | one frame yields one packet |
| Slip.RoundTrip | src/arduino-esp32/arduino-esp32-master/tools/esptool.py:2219-2264 | any list of packets is read back |
| Slip.ReadsAreOneRun | src/arduino-esp32/arduino-esp32-master/tools/esptool.py:2228-2236 | where one serial read ends and the next begins makes no difference |
| Slip.NothingLost | src/arduino-esp32/arduino-esp32-master/tools/esptool.py:2240-2264 | until an error is raised, the bytes are the frames of the packets that were yielded and the beginning of one more, as far as the reader has it |
| Slip.FailsExactly | src/arduino-esp32/arduino-esp32-master/tools/esptool.py:2240-2264 | no error is raised iff the bytes are the beginning of framed packets: every other head and every other escape is refused |
| Slip.ReadsFailExactly | src/arduino-esp32/arduino-esp32-master/tools/esptool.py:2228-2264 | a sequence of reads fails iff one of them times out or their bytes are not such a beginning |
| Slip.SlipReader.ReadByte | src/arduino-esp32/arduino-esp32-master/tools/esptool.py:2236-2264 | one byte moves the reader as the state machine says, both errors included |
| Slip.SlipReader.ReadAll | src/arduino-esp32/arduino-esp32-master/tools/esptool.py:2228-2264 | a sequence of reads, an empty one being a timeout, moves the reader like the concatenation up to the first error |
| Slip.SlipReader.Receive | src/arduino-esp32/arduino-esp32-master/tools/esptool.py:2219-2264 | for every chunking the reader yields exactly the packets given to write |
| ApbCallbacks.RunIsRegistered | src/arduino-esp32/arduino-esp32-master/cores/esp32/esp32-hal-cpu.c:74-130 | after any history of requests, with or without memory for each, the list holds each registered pair once, newest first, and nothing else |
| ApbCallbacks.RegisteredExactly | src/arduino-esp32/arduino-esp32-master/cores/esp32/esp32-hal-cpu.c:74-130 | a pair is registered iff some request with memory has added it and none has removed it since |
| ApbCallbacks.WithoutMembers | src/arduino-esp32/arduino-esp32-master/cores/esp32/esp32-hal-cpu.c:108-130 | removing an entry removes it and keeps the others |
| ApbCallbacks.WithoutKeepsOrder | src/arduino-esp32/arduino-esp32-master/cores/esp32/esp32-hal-cpu.c:108-130 | and keeps their order |
| ApbCallbacks.CallbackList.Find | src/arduino-esp32/arduino-esp32-master/cores/esp32/esp32-hal-cpu.c:89-91 | the node of a pair, or null iff it is not in the list |
| ApbCallbacks.CallbackList.AddCallback | src/arduino-esp32/arduino-esp32-master/cores/esp32/esp32-hal-cpu.c:74-106 | true iff memory was available and the pair is new; then it stands in front, with prev and next inverse and no node twice |
| ApbCallbacks.CallbackList.RemoveCallback | src/arduino-esp32/arduino-esp32-master/cores/esp32/esp32-hal-cpu.c:108-130 | true iff the pair was there; it is unlinked and the rest stays linked |
| ApbCallbacks.CallbackList.Relink | src/arduino-esp32/arduino-esp32-master/cores/esp32/esp32-hal-cpu.c:121-125 | the neighbours of the removed node point to each other |
| ApbCallbacks.CallbackList.Trigger | src/arduino-esp32/arduino-esp32-master/cores/esp32/esp32-hal-cpu.c:53-72 | BEFORE calls every callback in list order, any other event calls the same callbacks in exactly the reverse order |
| ApbCallbacks.CallbackList.Replay | src/arduino-esp32/arduino-esp32-master/cores/esp32/esp32-hal-cpu.c:74-130 | the heap list follows any history of requests, whichever of them find no memory |
| CircularBuffer.Cbuf.Measures | src/arduino-esp32/arduino-esp32-master/cores/esp32/cbuf.cpp:72-91 | available is the length of the queue, available plus room the capacity, empty and full at the ends |
| CircularBuffer.RingDrop | src/arduino-esp32/arduino-esp32-master/cores/esp32/cbuf.cpp:143-143 | moving begin drops a prefix, across the end of the memory too |
| CircularBuffer.RingTake | src/arduino-esp32/arduino-esp32-master/cores/esp32/cbuf.cpp:108-115 | one or two pieces of memory are the prefix of the queue |
| CircularBuffer.AppendStraight | src/arduino-esp32/arduino-esp32-master/cores/esp32/cbuf.cpp:170-171 | bytes copied behind the end in one piece are appended |
| CircularBuffer.AppendWrapped | src/arduino-esp32/arduino-esp32-master/cores/esp32/cbuf.cpp:163-171 | so are bytes copied in two pieces |
| CircularBuffer.Cbuf.PeekByte | src/arduino-esp32/arduino-esp32-master/cores/esp32/cbuf.cpp:93-100 | the first byte or -1; nothing changes |
| CircularBuffer.Cbuf.Peek | src/arduino-esp32/arduino-esp32-master/cores/esp32/cbuf.cpp:102-117 | copies a prefix of the queue and changes nothing |
| CircularBuffer.Cbuf.ReadByte | src/arduino-esp32/arduino-esp32-master/cores/esp32/cbuf.cpp:119-128 | takes the first byte or returns -1 |
| CircularBuffer.Cbuf.Read | src/arduino-esp32/arduino-esp32-master/cores/esp32/cbuf.cpp:130-145 | copies a prefix out and leaves the rest of the queue |
| CircularBuffer.Cbuf.WriteByte | src/arduino-esp32/arduino-esp32-master/cores/esp32/cbuf.cpp:147-156 | appends iff there is room |
| CircularBuffer.Cbuf.Write | src/arduino-esp32/arduino-esp32-master/cores/esp32/cbuf.cpp:158-173 | appends as many bytes as there is room for |
| CircularBuffer.Cbuf.Remove | src/arduino-esp32/arduino-esp32-master/cores/esp32/cbuf.cpp:181-196 | drops a prefix and returns what is left |
| CircularBuffer.Cbuf.Resize | src/arduino-esp32/arduino-esp32-master/cores/esp32/cbuf.cpp:38-70 | contents and order are kept; refused exactly as the code does; the result is a usable buffer iff (request + 1) mod 2^32 is not available() |
| CircularBuffer.ResizeTooTight | src/arduino-esp32/arduino-esp32-master/cores/esp32/cbuf.cpp:38-70 | a full buffer of capacity 2 resized to capacity 1 is not usable any more |
| CircularBuffer.Cbuf.ResizeAdd | src/arduino-esp32/arduino-esp32-master/cores/esp32/cbuf.cpp:33-36 | grows the memory by one more than asked and keeps the queue |
| DoorController.Door.DriveUp | src/arduino-esp32/arduino-esp32-master/main.cpp:2726-2727 | forward on and backward off; switching forward on first is safe because backward is off |
| DoorController.Door.DriveDown | src/arduino-esp32/arduino-esp32-master/main.cpp:2782-2783 | forward off and backward on; safe from any lines but both on |
| DoorController.Door.Start | src/arduino-esp32/arduino-esp32-master/main.cpp:2738-2751 | a standing motor is started towards the goal and moveZero set once |
| DoorController.Door.AtBottom | src/arduino-esp32/arduino-esp32-master/main.cpp:2701-2730 | both sensors low: closing finishes after two seconds, else the door goes up; next direction, position and lines as tabulated |
| DoorController.Door.Stuck | src/arduino-esp32/arduino-esp32-master/main.cpp:2732-2765 | only the lower sensor high: blocked, blockZero set once, a finishing door moves down again |
| DoorController.Door.AtTop | src/arduino-esp32/arduino-esp32-master/main.cpp:2767-2785 | both sensors high: up, and the motor down |
| DoorController.Door.OnTheWay | src/arduino-esp32/arduino-esp32-master/main.cpp:2787-2819 | only the upper sensor high: driving, direction kept or started |
| DoorController.Door.CheckTimers | src/arduino-esp32/arduino-esp32-master/main.cpp:2823-2850 | a timer trips only when more than its time has truly passed, although the clock wraps at 32 bits; if none trips, no time has run out by more than one clock gap; the blocked timer goes first; nothing else changes |
| DoorController.Door.Pass | src/arduino-esp32/arduino-esp32-master/main.cpp:2686-2859 | one pass is exactly one look at the sensors and one check of timers and buttons; never both lines high |
| DoorController.NextHeading | src/arduino-esp32/arduino-esp32-master/main.cpp:2686-2859 | a pass that ends neither in the goal nor in an error leads to a good head: direction to the goal, lines to the direction, moveZero set once, all timers within their limits |
| DoorController.PassEnding | src/arduino-esp32/arduino-esp32-master/main.cpp:2686-2859 | at most 30403 passes, at most 152 s and seven clock gaps; moveZero is set a second time only in the pass that reaches the top |
| DoorController.PassLoops | src/arduino-esp32/arduino-esp32-master/main.cpp:2686-2859 | each pass ends the loop in time or leads to a good head |
| DoorController.NoFalseAlarm | src/arduino-esp32/arduino-esp32-master/main.cpp:2823-2850 | if the clock is read every 37 s, a pass that sees the goal reports no timer error, and errors name the right direction |
| DoorController.TurnedAway | src/arduino-esp32/arduino-esp32-master/main.cpp:2701-2785 | in the pass that sees the goal the motor points to it iff the door was closing fully |
| DoorController.Door.Begin | src/arduino-esp32/arduino-esp32-master/main.cpp:2654-2684 | the position before the first pass: up iff both sensors are high, down iff both are low, driving otherwise |
| DoorController.Door.SwitchOff | src/arduino-esp32/arduino-esp32-master/main.cpp:2861-2868 | an old timer error is cleared iff the door is not blocked; both lines low, direction standing |
| DoorController.GoalShown | src/arduino-esp32/arduino-esp32-master/main.cpp:2701-2785 | a pass ends in the goal only if its readings show it; the door is down only after closing for more than two seconds, or if it stood there |
| DoorController.PassOutcome | src/arduino-esp32/arduino-esp32-master/main.cpp:2823-2859 | after a pass the loop is left for a timer that has truly elapsed, for a button that its readings find pressed, or for the goal that they show |
| DoorController.Door.MoveMotor | src/arduino-esp32/arduino-esp32-master/main.cpp:2637-2868 | for all sensors, buttons and clocks: never both lines high; no pass is made iff both sensors are high at the start and the goal is up, or both low and the goal is down; the run is a chain of passes, one after the other in the readings, each from a head where the line towards the goal is on and moveZero was set once; it ends in bounded passes and time, with the motor off, and for the reason that its last pass shows: the goal at its sensors, a timer whose time is over, or a pressed button |
| LightDebounce.PackRoundTrip | src/arduino-esp32/arduino-esp32-master/main.cpp:2932-2944 | both flags survive in the byte, and the counter saturated at 15 |
| LightDebounce.PackedBits | src/arduino-esp32/arduino-esp32-master/main.cpp:2932-2944 | four bits of count, then two bits for each flag, with the codes of the positions |
| LightDebounce.Controller.ActivateLdr | src/arduino-esp32/arduino-esp32-master/main.cpp:2204-2263 | the counter counts qualifying readings, is reset by any other, and moves the door when it is full; a wrong flag is an error |
| LightDebounce.Controller.WriteValuesToFlash | src/arduino-esp32/arduino-esp32-master/main.cpp:2932-2944 | the byte that is written |
| LightDebounce.Controller.ReadValuesFromFlash | src/arduino-esp32/arduino-esp32-master/main.cpp:2973-2994 | flags and counter from the byte, or defaults while nothing was ever stored |
| LightDebounce.Controller.TimerWakeup | src/arduino-esp32/arduino-esp32-master/main.cpp:3125-3132 | a wakeup depends on nothing but the byte in the clock and the reading |
| LightDebounce.WokenGoal | src/arduino-esp32/arduino-esp32-master/main.cpp:2204-2263 | the door moves only to the goal of its flag and when the light asks for it; any other flag is an error |
| LightDebounce.MovesAtFirstRun | src/arduino-esp32/arduino-esp32-master/main.cpp:2204-2263 | for a count up to 16, the first move happens exactly at the end of the first run of that many qualifying readings |
| LightDebounce.DarkCloses | src/arduino-esp32/arduino-esp32-master/main.cpp:2207-2232 | the door goes down exactly with the first run of readings that are at most as bright as the threshold |
| LightDebounce.BrightOpens | src/arduino-esp32/arduino-esp32-master/main.cpp:2233-2258 | and up exactly with the first run of readings that are at least as bright |
| LightDebounce.NeverMoves | src/arduino-esp32/arduino-esp32-master/main.cpp:2932-2944 | for a larger count never |
| LightDebounce.CountCanBeMet | src/arduino-esp32/arduino-esp32-master/main.cpp:2204-2263 | the count can be met iff it is at most 16 |
| LightDebounce.FlagsSurvive | src/arduino-esp32/arduino-esp32-master/main.cpp:2985-2994 | a wakeup without a move leaves both flags unchanged |
| PartitionTable.FixOne | src/arduino-esp32/arduino-esp32-master/tools/gen_esp32part.py:117-133 | one partition: an offset that is taken is refused, a missing one filled in, a negative size turned into a length |
| PartitionTable.FixUp | src/arduino-esp32/arduino-esp32-master/tools/gen_esp32part.py:116-135 | fails at the first partition whose offset is taken; otherwise every partition has its place behind the one before |
| PartitionTable.AlignUpIsLeast | src/arduino-esp32/arduino-esp32-master/tools/gen_esp32part.py:127-130 | the rounded offset is the least aligned one that is free |
| PartitionTable.Allocation | src/arduino-esp32/arduino-esp32-master/tools/gen_esp32part.py:116-135 | partitions are chained behind the table, given offsets and sizes are kept, automatic offsets are the least free ones that are aligned, to 64K for applications and to 4 for all others, negative sizes give the end |
| PartitionTable.AcceptsExactly | src/arduino-esp32/arduino-esp32-master/tools/gen_esp32part.py:116-135 | a table is refused iff a partition would start before the one in front of it ends, or inside the partition table |
| PartitionTable.FixedUpPasses | src/arduino-esp32/arduino-esp32-master/tools/gen_esp32part.py:116-135 | without negative sizes the table is in order, pairwise disjoint, above the table, and passes the overlap scan |
| PartitionTable.SizedExactly | src/arduino-esp32/arduino-esp32-master/tools/gen_esp32part.py:131-132 | no size is negative iff no partition is given an end below its offset |
| PartitionTable.FixedUpExactly | src/arduino-esp32/arduino-esp32-master/tools/gen_esp32part.py:116-135 | a fixed-up table has no negative size, is disjoint, above the table and accepted by the overlap scan iff no partition is given an end below its offset |
| PartitionTable.NegativeSizeOverlaps | src/arduino-esp32/arduino-esp32-master/tools/gen_esp32part.py:131-133 | a table that is accepted and hands out the same bytes twice |
| PartitionTable.OverlapScan | src/arduino-esp32/arduino-esp32-master/tools/gen_esp32part.py:195-202 | the scan over the sorted table accepts iff no partition lies below the table or overlaps its predecessor |
| PartitionTable.ScanIsExact | src/arduino-esp32/arduino-esp32-master/tools/gen_esp32part.py:195-202 | comparing neighbours is enough for no overlap at all; for positive sizes it is equivalent |
| PartitionTable.FlashSize | src/arduino-esp32/arduino-esp32-master/tools/gen_esp32part.py:204-212 | 0 for an empty table, else the end of the first partition with the largest offset |
| PartitionTable.FlashSizeExact | src/arduino-esp32/arduino-esp32-master/tools/gen_esp32part.py:204-212 | that is the maximum end iff no partition at the largest offset is longer than the first there; always for positive sizes |
| PartitionTable.ZeroSizeHidesEnd | src/arduino-esp32/arduino-esp32-master/tools/gen_esp32part.py:204-212 | a table that passes the scan and whose end is missed |
| Sorting.FirstOfSorted | src/arduino-esp32/arduino-esp32-master/tools/gen_esp32part.py:208-208 | the first element of a stable sort is the earliest with the least key |
| Sorting.SortedStays | src/arduino-esp32/arduino-esp32-master/tools/gen_esp32part.py:197-197 | a table in order is not changed by sorting |
| PartitionBinary.EntryRoundTrip | src/arduino-esp32/arduino-esp32-master/tools/gen_esp32part.py:370-402 | a packed partition is unpacked to itself, flags included, with the name as far as it was stored |
| PartitionBinary.RecordLayout | src/arduino-esp32/arduino-esp32-master/tools/gen_esp32part.py:395-402 | byte by byte: magic, type, subtype, offset before size, 16 bytes of name, flags |
| PartitionBinary.RecordReads | src/arduino-esp32/arduino-esp32-master/tools/gen_esp32part.py:370-390 | what is read from any 32 bytes, and that only the magic bytes decide whether they are a partition |
| PartitionBinary.StoredNameIs | src/arduino-esp32/arduino-esp32-master/tools/gen_esp32part.py:379-380 | a name comes back up to its first NUL and its 16th byte |
| PartitionBinary.NameSurvives | src/arduino-esp32/arduino-esp32-master/tools/gen_esp32part.py:379-380 | a name survives iff it has at most 16 bytes and no NUL |
| PartitionBinary.EntryReads | src/arduino-esp32/arduino-esp32-master/tools/gen_esp32part.py:215-231 | a written partition is never taken for the checksum or the end marker |
| PartitionBinary.MarkersRead | src/arduino-esp32/arduino-esp32-master/tools/gen_esp32part.py:223-231 | the markers are never taken for a partition |
| PartitionBinary.FromBinary | src/arduino-esp32/arduino-esp32-master/tools/gen_esp32part.py:214-232 | the reader: end marker, checksum over the records before it, partitions; an error for a wrong length, magic, checksum or a missing end |
| PartitionBinary.ParseExactly | src/arduino-esp32/arduino-esp32-master/tools/gen_esp32part.py:214-232 | a table is accepted iff it has an end marker with only partitions and right checksums in front of it, and then gives these partitions in order; a wrong checksum is an error |
| PartitionBinary.TableFits | src/arduino-esp32/arduino-esp32-master/tools/gen_esp32part.py:234-241 | a table can be written iff its fields fit and it has at most 95 records |
| PartitionBinary.TableLayout | src/arduino-esp32/arduino-esp32-master/tools/gen_esp32part.py:234-241 | where records, checksum and end marker stand in the sector |
| PartitionBinary.ParseRecords | src/arduino-esp32/arduino-esp32-master/tools/gen_esp32part.py:219-231 | the records of a table are read in order, and all of them are hashed |
| PartitionBinary.RoundTrip | src/arduino-esp32/arduino-esp32-master/tools/gen_esp32part.py:214-241 | reading what was written gives the same table, with or without checksum, whatever MD5 is |
| PartitionBinary.RoundTripExact | src/arduino-esp32/arduino-esp32-master/tools/gen_esp32part.py:379-380 | the table comes back unchanged iff every name fits |

## Left out

* Hardware and operating system: interrupt registers other than the two enables of END and transmit, timeouts, mutexes, event groups and error accounting of the I2C driver; semaphores and `free` around the callback list.
* I2C queue: its allocation and the 16-bit width of `length` and `queueCount`, `dataOnly` elements, and the debug buffers.
* Processor clock: the callbacks themselves, which could change the list while it is walked.
* Random numbers: a negative bound, and the signed overflow of the distance between two bounds, which C leaves undefined.
* Circular buffer: allocation failure and the sign of `char`.
* Images: patching the ELF digest into a segment, the fields inside the extended header other than the digest flag, the other chips' formats, and SHA-256, which is an arbitrary function here.
* Partition tables: reading CSV text, partition names as UTF-8 text, the checks of single partitions and of duplicate names, and MD5, which is an arbitrary function here.
* Door: menus, alarms, battery and LCD, what `statusabfrage` does after a move, saving the time of the last move, and the blink and calendar code.
* Everything else in the Arduino core: drivers, strings, floating point, build scripts.
- I2cMaster.I2c.Transfer: the bus never fails; NAKs, arbitration losses and timeouts, which end a transfer early, are not modelled. An interrupt comes between two events of the bus and is served as a whole.
- I2cMaster.I2c.RxInterrupt: the receive FIFO and the storing of its bytes; queuePos goes where they belong. In a run that has lost commands it stays where it is if an element on the way has bytes to push, where the driver would report an error.
- StreamMatcher.Stream.FindMulti: the stream is a given sequence of bytes that ends in one timeout.
- BoundedRandom.Generator.Random: the draws are a given finite sequence; that a draw is accepted at last is a matter of chance.
- SpiClock.FrequencyToClockDiv: a wanted frequency of 0 with an APB clock below 2^19 Hz, for which the code divides by zero.
- CircularBuffer.Cbuf.ResizeAdd: sizes whose sum passes 2^32.
- ImageWriter.Save: segments whose address or length comes within 0x24 of 2^32; Python's `struct` refuses some of them.
- ImageLoader.Load: chip identification and reserved fields, for which the tool prints warnings only.
- DoorController.Door.MoveMotor: the time between two clock readings, apart from the 5 ms waits, is at most 2^29 ms, about six days; with longer gaps the 32-bit differences say nothing. The motor lines and the light are three outputs, although one pin number is currently given to all of them.
- LightDebounce.Controller.TimerWakeup: the sleep itself and what happens after a move; the byte in the clock is the only memory between wakeups.
- PartitionBinary.FromBinary: unknown flag bits are dropped with a warning in the tool; here they are dropped.
