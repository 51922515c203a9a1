# lux-mon: a verified model

lux-mon watches and controls LuxPower and EG4 inverters through a TCP dongle and two kinds of
battery through RS-485.  This project models its hard parts in Dafny and proves what they promise.

**Wire protocol.**  `Crc` defines the Modbus CRC bit by bit (section 6.2.2 of "MODBUS over Serial
Line Specification and Implementation Guide V1.02") and proves that both loops of the repository,
the bitwise one and the table-driven one, compute it; that a message with its CRC behind it leaves
the register at zero, and no other trailer does; and that every change confined to 16 consecutive
bits is noticed at any message length.  `Frames` is the parser, `Packets` the packet layouts and
the builders that fill a buffer in place, `Scanner` the two stream scanners.  What `find_frames`
recovers is also described without its loop: the one list of disjoint complete frames, in order,
outside of which no complete frame starts.  `PassiveStream` is the receive loop of the passive
transport and of replay: however a good stream is cut into chunks, connections break and frames are
delivered twice, the register cache of `Collectors` ends up as if each frame had been handled once.
`Batteries` has the two RS-485 drivers.

**Writing through an unreliable dongle.**  `Persistent` is one transaction over a socket whose every
step the network may spoil, `HoldingRegisters` the register reads and writes made of it and what
any number of forwarded copies do to the inverter.  `Dongles` is the adversary that the callers see:
a script decides for each transaction whether a write is forwarded, whether it is answered or
raises, and whether a read tells the truth; whatever a transaction of `Persistent` and the forwarding
of its copies come to is one of these fates.  On top of it are `QuickCharge`, the automation engine
(`Settings`, `Rules`, `Schedule`, `Ticks`, `Engine`) and the write handlers of the API (`Api`).
`Ticks` says in functions what a tick, and a run of ticks, remembers and may do over any dongle;
`Engine` is the class that does it.

**History and accounting.**  `Alerts` and `Throttle` relate their state to everything that happened
before; `Energy` accounts for every snapshot; `Influx` prints a line and reads it back.

Methods stand for code that changes state, with the fields the original has; what they do is tied
to functions, and lemmas say what those functions mean, down to the bytes, numbers and comparisons
of the original.  The exception replies of the round trip are laid out like the documented read
responses, with protocol 5 and address 1.  Ghost fields (`sent`, `accepted`, `ops`,
`states`, `past`, `published`, `samples`, `seen`, `begun`) record histories for the invariants.

Some properties that a reader may expect do not hold of the code.  They are stated with the exact
condition under which they do:

- `find_frames` looks inside a frame that is still incomplete, so it may report a frame that the
  completed stream does not hold.  By `Scanner.FramesStableIff` no frame is ever taken back exactly
  when it returns none for the bytes behind the last complete packet; `Scanner.HeartbeatTakenBack`
  is a stream, for every serial, in which a reported heartbeat disappears.
- A quick charge can be on without a duration, because the duration write is not read back.  By
  `QuickCharge.StartSafeIff` a start is safe against every dongle whose reads tell the truth exactly
  when the duration register is not zero before it; `QuickCharge.StartWithFalseEcho` builds a dongle
  that fails it otherwise.  Stops and ticks are always safe.
- A BMS response whose second byte has its top bit set is reported as a Modbus error without a look
  at its CRC: `Batteries.ByteChangeOutcome`.
- A schedule whose points all have the same time, in particular one with a single point, never
  matches: `Schedule.ScheduleMeaning`.
- A serial survives its 10-byte field only if it is ASCII and does not end the field with NUL:
  `Frames.SerialRoundTrip`.
- The power factor command may be negative, and the request builder then refuses the write:
  `Settings.TargetInRange`.

Where code and documentation differ the model follows the code: the heartbeat carries 13 in its
length field (`collector/protocol.py:767` says 19); stopping a quick charge clears both registers
(`api/__init__.py:1795` speaks of restoring a prior value); a write counts as accepted when the
register is echoed, whatever value is echoed (`collector/automation.py:103`).

## Model

| member | source | states |
|---|---|---|
| Crc.CrcBitwise | collector/rs485/eg4_bms.py:57-66 | the bitwise loop computes the reference CRC of every message |
| Crc.ShiftLoop | docs/reference/lux-protocol/python/decode_capture.py:142-152 | the inner loop of both bitwise versions is eight shifts of the reference register |
| Crc.Crc16Modbus | collector/protocol.py:570-575 | the table-driven loop computes the same reference CRC of every message |
| Crc.CrcExample | collector/protocol.py:570-575 | the worked example of the standard: the CRC of 02 07 is 1241 hexadecimal, sent as 41 12 |
| Crc.TableIsShift8 | collector/protocol.py:534-567 | each of the 256 table entries is eight shifts of its index |
| Crc.TableStep | collector/protocol.py:570-575 | one table step from any register equals the eight shifts of the reference |
| Crc.ResidueIffTrailer | collector/rs485/eg4_bms.py:69-71 | the CRC of a message with two bytes behind it is zero exactly when these are its CRC, low byte first |
| Crc.CrcFromInjective | collector/rs485/eg4_bms.py:57-66 | over the same bytes two register states never meet |
| Crc.BurstDetected | collector/rs485/eg4_bms.py:57-66 | two messages that differ only within 16 consecutive bits have different CRCs |
| Frames.SerialRoundTrip | collector/protocol.py:580-585 | the 10-byte serial field gives back the cut or padded serial exactly for serials that are ASCII and do not end it with NUL |
| Frames.SerialByteAt | collector/protocol.py:580-585 | each of the ten bytes: the character, a question mark for one that is not ASCII, a space behind the end |
| Frames.SerialAtMeaning | collector/protocol.py:818 | reading a serial: the ten bytes as characters, without the NULs at the end |
| Frames.Parse | collector/protocol.py:802-831 | a byte string is a frame exactly when it has 18 bytes and the magic; the frame keeps all its bytes |
| Frames.ParsedHeader | collector/protocol.py:802-831 | in bytes: which are frames, where protocol, function and serial lie, and that nothing else is read of other functions |
| Frames.ParseFrame | collector/protocol.py:802-831 | reads any byte string without leaving its range and returns its meaning |
| Frames.ParseDataFrame | collector/protocol.py:834-890 | the data part, in place, as the meaning of the bytes: error replies, echoed value, register values, write count |
| Frames.ParsedError | collector/protocol.py:834-875 | in bytes: a frame is an error exactly when byte 21 is 128 or more; then byte 22 is its code and it has no values; otherwise where serial, register and write count lie |
| Frames.ParsedValues | collector/protocol.py:865-883 | in bytes: the echoed value, and the register values, as many as the count says and end before the CRC |
| Packets.ParseEncode | collector/protocol.py:802-890 | the parser reads back function, serials, register, values, write count, error and its code of every packet kind, exception replies included; requests carry no values |
| Packets.ParseReadResponse | docs/reference/lux-protocol/python/decode_capture.py:5-22 | a read response laid out as documented, with up to 127 values, parses to exactly those values |
| Packets.WriteMultiValues | collector/protocol.py:746-749 | the values of a multi-register write lie at byte 37, two bytes each |
| Packets.PacketBody | collector/protocol.py:654-658 | the body lies at byte 20 and the last two bytes are its CRC |
| Packets.EncodedLayout | collector/protocol.py:621-658 | every byte of the envelope of every packet with data: the declared lengths at 4 and 18, 1 at byte 6, the serial, and the CRC of the body at the end |
| Packets.BodyLayout | collector/protocol.py:638-652 | where address, function, serial, register and the rest of the body lie |
| Packets.BuildReadRequest | collector/protocol.py:588-658 | fails exactly on fields that do not fit; fills the buffer to the documented 38-byte packet, byte by byte |
| Packets.BuildWriteRequest | collector/protocol.py:661-695 | fails exactly on a value or register that is not 16 bits; otherwise gives the documented packet, byte by byte |
| Packets.BuildWriteMultiRequest | collector/protocol.py:698-755 | fails exactly on no values, more than 123, a value or a register that is not 16 bits; otherwise gives the documented packet, byte by byte |
| Packets.BuildHeartbeat | collector/protocol.py:758-797 | gives the 19-byte heartbeat, byte by byte |
| Packets.PutValues | collector/protocol.py:748-749 | the packing loop appends the values to what the buffer held before |
| Scanner.FindFrames | collector/protocol.py:893-913 | terminates on every buffer, never reads out of range, and returns the parsed pieces of the scan |
| Scanner.ScanIffTiling | collector/protocol.py:893-913 | what the scan recovers is the one list of disjoint complete frames, in order, outside of which no complete frame starts |
| Scanner.TilingIsScan | collector/protocol.py:893-913 | every such list is what the scan recovers |
| Scanner.ScanTiles | collector/protocol.py:893-913 | there always is such a list |
| Scanner.CompleteAtBytes | collector/protocol.py:903-912 | in bytes: what counts as a complete frame |
| Scanner.FindPackets | docs/reference/lux-protocol/python/decode_capture.py:251-266 | returns the packets of the waiting scan, each cut out right before its end offset; the last offset leaves the rest |
| Scanner.WaitFound | docs/reference/lux-protocol/python/decode_capture.py:251-266 | the waiting scan without its loop: complete frames in order that leave out no magic, up to where the rest begins; the first magic in the rest belongs to an incomplete frame |
| Scanner.PacketsExtend | docs/reference/lux-protocol/python/decode_capture.py:251-266 | later bytes never change what was found, and the scan can resume at the rest |
| Scanner.ChunkInvariance | docs/reference/lux-protocol/python/decode_capture.py:311-333 | for every stream and every chunking the packets emitted are those of the whole stream |
| Scanner.Capture | docs/reference/lux-protocol/python/decode_capture.py:311-333 | the receive loop emits the packets of all bytes received, whatever time-outs come between |
| Scanner.ScanSplit | collector/protocol.py:893-913 | find_frames finds what the waiting scanner finds, and then what lies inside the rest |
| Scanner.FramesStableIff | collector/protocol.py:893-913 | no continuation takes back a frame that find_frames returned exactly when it returns none for the bytes behind the last complete packet |
| Scanner.ScanStableIff | collector/protocol.py:903-912 | the same for the scanned pieces, short ones included; exactly then both scanners find the same |
| Scanner.HeartbeatTakenBack | collector/protocol.py:903-912 | for every serial, a heartbeat inside an incomplete frame is reported, and gone once the frame is complete |
| Scanner.FramesFound | collector/protocol.py:893-913 | on any bytes the frames returned are the scanned pieces of 18 bytes or more, well-formed and in order, and begin with the waiting scanner's packets of that length |
| Scanner.FoundAlone | collector/protocol.py:893-913 | a frame that arrives alone is the one frame found |
| Scanner.ScanFlatten | collector/protocol.py:893-913 | frames sent back to back are recovered one by one by both scanners, whatever they carry |
| Scanner.BuiltStreamRoundTrip | collector/protocol.py:588-913 | any stream of built packets and read responses scans to exactly one frame per packet with the packet's fields |
| Scanner.CrcValid | docs/reference/lux-protocol/python/decode_capture.py:214-218 | the decoder's recheck: the last two bytes are the CRC of the bytes from 20 on |
| Scanner.EncodedCrcValid | docs/reference/lux-protocol/python/decode_capture.py:214-218 | every packet that carries data passes the recheck |
| Collectors.Collector.HandleFrame | collector/collector.py:629-650 | a reply to function 4 overwrites exactly the input registers that it reports, one to function 3 the holding registers; the other cache, and any other frame, changes nothing |
| Collectors.InputMeaning | collector/collector.py:629-640 | after a list of frames an input register holds the value of the last function 4 frame that reports it |
| Collectors.HoldMeaning | collector/collector.py:641-650 | likewise a holding register and function 3 |
| Collectors.FoldIsMerge | collector/collector.py:629-650 | handling frames overwrites the cache with one fixed cache, so it depends on the frames alone |
| Collectors.FoldTwice | collector/collector.py:629-650 | delivering frames a second time right after the first changes nothing |
| PassiveStream.ConsumeFrames | collector/comm/tcp_passive.py:106-115 | delivers every frame of the buffer in order and cuts behind the first occurrence of the last one's bytes |
| PassiveStream.ConsumeMeaning | collector/comm/tcp_passive.py:106-115 | in bytes: a buffer without frames is kept; otherwise what remains begins behind the first occurrence of the last frame |
| PassiveStream.ResyncMeaning | collector/comm/tcp_passive.py:89-91 | a buffer of more than 8192 bytes is cut to the first magic behind its first byte, or to nothing; a shorter one is kept |
| PassiveStream.TurnMeaning | collector/comm/tcp_passive.py:66-104 | what one turn does to connection, buffer and cache |
| PassiveStream.PassiveTransport.Run | collector/comm/tcp_passive.py:66-104 | the receive loop over any run of connects, chunks, closes, time-outs and errors refines the step function |
| PassiveStream.ScanPartial | collector/protocol.py:893-913 | any beginning of a good stream scans to the frames that are complete in it |
| PassiveStream.ConsumeCut | collector/comm/tcp_passive.py:111-115 | after a cut the buffer holds the stream from some frame that was delivered already on |
| PassiveStream.ResyncCut | collector/comm/tcp_passive.py:89-91 | so it does after the 8192-byte resynchronisation, which only drops delivered frames |
| PassiveStream.ReceiveStep | collector/comm/tcp_passive.py:86-91 | one chunk of a good stream, from any buffer that holds a beginning of it |
| PassiveStream.ChunksConfluent | collector/comm/tcp_passive.py:78-115 | after every chunk of any chunking the cache is that of the frames received completely, each once and in order |
| PassiveStream.OneSession | collector/comm/tcp_passive.py:66-104 | one connection, after failed attempts and until it breaks, adds exactly the frames it completed |
| PassiveStream.RunConfluent | collector/comm/tcp_passive.py:66-115 | the same over any number of connections |
| PassiveStream.RegistersAfterRun | collector/comm/tcp_passive.py:66-115 | after any run of good sessions a register holds the two bytes that the last completed frame to report it carries for it |
| PassiveStream.UnreportedAfterRun | collector/comm/tcp_passive.py:66-115 | a register that no completed frame reports is as before |
| PassiveStream.Replay | collector/comm/replay.py:57-75 | replaying a file is receiving its pieces without resynchronisation |
| PassiveStream.ReplayConfluent | collector/comm/replay.py:57-75 | replaying a recorded good stream has the effect of its frames, whatever the chunk size |
| Batteries.Validate | collector/rs485/eg4_bms.py:100-123 | accepts exactly responses that are long enough and whose CRC is right; error replies come first |
| Batteries.CorruptionDetected | collector/rs485/eg4_bms.py:100-123 | an accepted response changed within 16 consecutive bits is never accepted again |
| Batteries.ByteChangeOutcome | collector/rs485/eg4_bms.py:100-123 | changing one or two neighbouring bytes gives nothing, or a Modbus error exactly if byte 1 has its top bit set and the address is right |
| Batteries.ReadRequestTo | collector/rs485/eg4_bms.py:69-71 | each byte of a request, which passes the CRC check of its receiver |
| Batteries.Summarise | collector/rs485/eg4_bms.py:137-163 | the first smallest and first largest cell between 1 and 4999 mV with their numbers, and the sum and number of such cells; 10000 and 0 when there is none |
| Batteries.OnlyValidConcat | collector/rs485/eg4_bms.py:137-163 | the valid cells are those above 0 and below 5000, in their order |
| Batteries.SumOfConcat | collector/rs485/eg4_bms.py:137-163 | the sum adds them one by one |
| Batteries.SplitFrames | collector/rs485/eg4_a5_bms.py:55-69 | the in-place scan returns the frames of its specification |
| Batteries.SplitFound | collector/rs485/eg4_a5_bms.py:55-69 | on any bytes the frames returned are disjoint complete ones in order, and every complete frame starts within one of them |
| Batteries.SplitFlatten | collector/rs485/eg4_a5_bms.py:55-69 | any concatenation of A5/5A frames is split into exactly those frames |
| Persistent.RunLengthMeaning | collector/comm/persistent.py:202-221 | the run is the longest stretch of identical responses at the end of the history |
| Persistent.PersistentConnection.NoteResponse | collector/comm/persistent.py:202-221 | the stale counter is the run less one modulo 5; the socket closes exactly when the run reaches 1 plus a positive multiple of 5 |
| Persistent.PersistentConnection.EnsureConnected | collector/comm/persistent.py:147-162 | keeps a live socket, otherwise connects or raises |
| Persistent.PersistentConnection.Await | collector/comm/persistent.py:255-282 | the answer is the first match in the first beginning of this attempt's bytes that holds one; none means no beginning held one |
| Persistent.PersistentConnection.TryOnce | collector/comm/persistent.py:245-297 | one attempt: at most one copy, and what becomes of the socket, the counters and the history |
| Persistent.PersistentConnection.Transact | collector/comm/persistent.py:225-298 | at most max_retries + 1 identical copies, one per attempt; an answer comes from its own attempt and follows silent ones; no answer means all were silent |
| HoldingRegisters.WriteHoldingRegister | collector/automation.py:94-126 | a value that does not fit raises before anything is sent; otherwise copies of one request until an echo, an error, silence or an exception; a refusal or an echo of this register heard first ends it after one copy |
| HoldingRegisters.RefusalEndsWrite | collector/automation.py:114-126 | an exception reply in the first attempt ends the write at once, as not written |
| HoldingRegisters.EchoEndsWrite | collector/automation.py:114-126 | so does an echo of a write to this register, as written |
| HoldingRegisters.OtherFramesIgnored | collector/automation.py:114-117 | no other reply counts as an answer |
| HoldingRegisters.WriteHoldingRegisters | collector/automation.py:129-163 | the same for a block of 1 to 123 registers |
| HoldingRegisters.BlockReplyEnds | collector/automation.py:129-163 | an exception reply or an echo of this block in the first attempt ends it |
| HoldingRegisters.ReadHoldingRegister | collector/automation.py:166-192 | a register number that does not fit raises before anything is sent; otherwise the value is the first one of a reply to this register received in this call |
| HoldingRegisters.ReplyEndsRead | collector/automation.py:166-192 | a reply about this register in the first attempt gives the value at its bytes 35 and 36; a refusal gives none |
| HoldingRegisters.WrittenMeansEchoed | collector/automation.py:114-126 | success means an echo of a write to this register |
| HoldingRegisters.WriteIsOldOrNew | collector/comm/persistent.py:225-298 | whichever copies are forwarded, the register is old or new and nothing else changes |
| HoldingRegisters.BlockIsAllOrNothing | collector/automation.py:129-163 | whichever copies are forwarded, all registers of the block are set or none |
| HoldingRegisters.ReadChangesNothing | collector/automation.py:166-192 | whichever copies of a read request are forwarded, no register changes |
| Dongles.WriteHasFate | collector/automation.py:94-126 | the registers and the result after a write transaction, whatever is forwarded of it, are those of one of the fates of the dongle |
| Dongles.ReadHasFate | collector/automation.py:166-192 | the same for a read transaction |
| Dongles.Dongle.Write | collector/automation.py:973-977 | a write may be dropped, forwarded without an answer, or echoed without being forwarded |
| Dongles.Dongle.Read | collector/automation.py:166-192 | a read changes nothing; it may stay unanswered or raise |
| QuickCharge.WithBit | collector/quick_charge.py:87 | sets or clears bit 0 and keeps bits 1 to 15 |
| QuickCharge.QuickChargeManager.SetEnableBit | collector/quick_charge.py:70-110 | a read, one write, up to four reads of the switch register; other bits and registers never change; success means the inverter holds the new value; three honest transactions suffice |
| QuickCharge.QuickChargeManager.WriteDuration | collector/quick_charge.py:263-270 | one unverified write of the duration |
| QuickCharge.QuickChargeManager.DoStart | collector/quick_charge.py:232-295 | duration before switch; the register states it goes through, safe whenever there was a duration before; a state with its deadline is saved only when both writes went through; what is logged; a false echo of the duration goes unnoticed |
| QuickCharge.AskedMeaning | collector/quick_charge.py:246-247 | the minutes asked for, else the default, else 60, forced into 1 to 1440 |
| QuickCharge.StartDoneMeaning | collector/quick_charge.py:270-295 | a start that went through logs the minutes at register 234 and the value of register 233 |
| QuickCharge.QuickChargeManager.DoStop | collector/quick_charge.py:297-340 | switch before duration, safe over every dongle; active is cleared only when both went through; what is logged |
| QuickCharge.QuickChargeManager.DoTick | collector/quick_charge.py:342-364 | acts exactly when a charge is active and its deadline has come |
| QuickCharge.QuickChargeManager.Run | collector/quick_charge.py:232-364 | over any run: other bits never change in any state; the switch is never on without a duration unless a start that found none had its duration write echoed falsely; the saved state is consistent |
| QuickCharge.HistoryMeaning | collector/quick_charge.py:232-364 | what the guarantees of a run say of registers 233 and 234 and of all others |
| QuickCharge.Chain | collector/quick_charge.py:232-364 | the guarantees of two stretches of a run are those of the whole |
| QuickCharge.StartIsSafe | collector/quick_charge.py:263-276 | with a duration in the register all states of a start are safe, whatever is dropped, unanswered or raised |
| QuickCharge.FalseEchoUnsafe | collector/quick_charge.py:263-276 | without one, a dongle that echoes the duration write without forwarding it leads every start into an unsafe state |
| QuickCharge.StartSafeIff | collector/quick_charge.py:263-276 | a start is safe against every dongle with truthful reads exactly when the old duration is not zero |
| QuickCharge.StartWithFalseEcho | collector/quick_charge.py:263-270 | the manager then reports a running charge, which is on without a duration exactly if there was none before |
| QuickCharge.Clamped | collector/quick_charge.py:246-247 | minutes are forced into 1 to 1440 and kept when they lie there |
| Schedule.Sort | collector/automation.py:887 | sorts by time and keeps the points |
| Schedule.SortStable | collector/automation.py:887 | points with equal times keep their order |
| Schedule.ActiveSource | collector/automation.py:882-903 | the loop returns the source of the first interval that now lies in, or the default |
| Schedule.ExactlyOneInterval | collector/automation.py:888-903 | with times that are not all equal, now lies in the interval of the latest point and in no other |
| Schedule.ScheduleMeaning | collector/automation.py:882-903 | now lies in some interval exactly when the times are not all the same |
| Schedule.SourceMeaning | collector/automation.py:882-903 | in sorted order: the loop's result is the source of the latest point at or before now, or of the last point before the first time; battery when all times are the same |
| Schedule.SourceOfLatest | collector/automation.py:882-903 | in the list as given: the source is that of the last point with the latest time not after now, or with the latest time of all when none is |
| Settings.MetaOf | collector/automation.py:201-286 | the mapped registers' scales and bounds; only the power factor command may be negative |
| Settings.RegistersDistinct | collector/automation.py:201-286 | two settings share a register exactly when they are the two charge currents |
| Settings.Round | collector/automation.py:79-86 | within a half of the number, exact on integers, and even on a tie |
| Settings.Clamp | collector/automation.py:604-611 | forces a value into the bounds and keeps it when it lies there |
| Settings.Target | collector/automation.py:916-934 | none exactly for settings without a register and registers that the model lacks |
| Settings.TargetMeaning | collector/automation.py:940-942 | the raw value times the scale is the value forced into the bounds, to within half a step |
| Settings.TargetExact | collector/automation.py:79-86 | a value within the bounds that is a whole number of steps gives exactly that number |
| Settings.TargetInRange | collector/automation.py:940-942 | the raw value times the scale lies within the bounds, to within half a step, and fits a register except for a power factor below -0.5 |
| Rules.Selected | collector/automation.py:586-601 | the group and range at which the search ends: those before it fail, it matches, or reading a condition there raises |
| Rules.SelectedIsFirst | collector/automation.py:586-601 | the pair found is the lexicographically first that matches; none found means none matches |
| Rules.FindMatchingRange | collector/automation.py:586-601 | the nested loops find it |
| Rules.WindowMeaning | collector/automation.py:523-544 | the window of a time condition runs from start through end, over midnight if need be |
| Rules.ConditionMeaning | collector/automation.py:523-577 | which conditions match, fail and raise |
| Rules.AllMatchMeaning | collector/automation.py:580-583 | all conditions match exactly if each does; the first one that does not match decides |
| Rules.UnreadableIff | collector/automation.py:559-601 | when an evaluation raises |
| Rules.ReadableWithoutBroken | collector/automation.py:547-577 | only a broken reading makes it raise |
| Rules.RuleTableMeaning | collector/automation.py:802-826 | a rule table writes the value of its first matching range and is on; without a match or a value it is off, and gives back its restore value if it was on |
| Rules.NoSettingMeaning | collector/automation.py:807-826 | without a setting it is off and writes nothing |
| Rules.BatteryProtectionMeaning | collector/automation.py:829-862 | battery protection is on exactly at or below the threshold, writing the action value when on and the restore value when it goes off |
| Rules.NotifyMeaning | collector/automation.py:779-786 | a notification is due when all conditions match and did not at the last evaluation |
| Rules.ActiveAfterMeaning | collector/automation.py:768-862 | the remembered activity is that of the latest evaluation that completed |
| Rules.RestoreIff | collector/automation.py:768-862 | in a history as the engine keeps it, a restore was issued exactly when the latest completed evaluation was on, this one is off, and there is something to restore |
| Rules.RestoreAfterOn | collector/automation.py:802-862 | without raised evaluations the latest completed evaluation is the one right before |
| Rules.RestoresSeparated | collector/automation.py:768-862 | between two restores the rule was on |
| Ticks.ActedMoves | collector/automation.py:768-909 | what an evaluation may do moves the registers to its goal or not at all, and raises over an honest dongle only when a reading raises or the builder refuses |
| Ticks.WriteReaches | collector/automation.py:911-993 | an honest write leaves the register of the setting at the value forced into its bounds, to within half a step, and no other register changed; it raises exactly for a power factor below -0.5 |
| Ticks.ChangeLogged | collector/automation.py:959-993 | an honest write is logged as a success exactly when it changes the register |
| Ticks.WriteNotSent | collector/automation.py:924-951 | without a register, or in a dry run, a write only leaves its row |
| Ticks.RememberOk | collector/automation.py:768-862 | an evaluation keeps the memory in line with the histories, and the notifications spaced |
| Ticks.TickHistory | collector/automation.py:739-766 | a tick extends the history of each rule by one evaluation per eligible rule of that id, in list order, and takes no notification back |
| Ticks.OneEvaluation | collector/automation.py:739-766 | with distinct ids each eligible rule is evaluated once in a tick, and no other |
| Ticks.PassedOver | collector/automation.py:754-757 | with the engine or the rule disabled, or before its time, a rule does nothing |
| Ticks.TickVerified | collector/automation.py:953-993 | over any dongle each write that a tick issues ends with a failure row, by raising, or with a read that returned the target |
| Ticks.TickOldOrTarget | collector/automation.py:739-993 | over any dongle a tick leaves each register as it was or at the target of a write it issued to it |
| Ticks.HonestTick | collector/automation.py:739-766 | an honest tick leaves the registers as its plan says; a dry tick sends nothing; a settled plan writes nothing |
| Ticks.RunHistory | collector/automation.py:739-862 | a run extends the history of each rule by exactly its evaluations |
| Ticks.RunConcludes | collector/automation.py:739-862 | after any run restores were issued exactly when due, each rule was on between two of its restores, and what is remembered is what the history says |
| Ticks.LastGoalWins | collector/automation.py:739-766 | each register holds the target of the last rule that wrote to it, or is unchanged |
| Ticks.PlanByRule | collector/automation.py:739-862 | with distinct ids each rule's part of a tick depends on what was remembered of it alone |
| Ticks.GoalTwice | collector/automation.py:768-862 | evaluated again in the same circumstances a rule aims at the same goal or at none |
| Ticks.SecondTickSettled | collector/automation.py:739-862 | if the goals lie in distinct registers, a first tick settles all goals of a second one |
| Engine.AutomationEngine.DoWrite | collector/automation.py:911-993 | a dry run sends nothing; otherwise the write ends with a failure row, with a read that returned the target, or by raising |
| Engine.AutomationEngine.WriteVerified | collector/automation.py:959-993 | one read, which ends it at the target, one write, and up to four reads until one returns it, at this register only; it fails only for a write without an echo or after four contrary reads; the register is old or the target; an honest dongle sets it |
| Engine.AutomationEngine.SendNotification | collector/automation.py:995-1008 | at most one notification per rule in 300 seconds |
| Engine.AutomationEngine.Act | collector/automation.py:768-909 | the transactions, log rows and notifications of an evaluation, with the end of its write |
| Engine.AutomationEngine.EvaluateOne | collector/automation.py:768-862 | the write is the value of the first matching range, or of battery protection at or below its threshold; an evaluation that raises, in a reading or a write, leaves the remembered activity alone, otherwise it is updated; history and notifications grow accordingly |
| Engine.AutomationEngine.Tick | collector/automation.py:739-766 | over any dongle the transactions, log and memory are those of one evaluation after the other; over an honest one, and in a dry run, they follow the plan |
| Engine.AutomationEngine.Run | collector/automation.py:739-862 | over any run of ticks: the histories hold exactly the evaluations made, restores are issued exactly when due and separated by an activation, notifications of a rule are 300 seconds apart |
| Engine.TickTwice | collector/automation.py:739-993 | the second tick in the same circumstances sends no write |
| Api.HoldingPut | api/__init__.py:1622-1705 | refused requests send nothing; success only after a read that returned the value; a 502 only after four unanswered writes or four contrary reads |
| Api.WantedMeaning | api/__init__.py:1641-1663 | a body names exactly one of value and raw; a value is within half a step of what is written; the bounds decide |
| Api.WriteRetried | api/__init__.py:1671-1684 | up to four writes until one is answered |
| Api.ReadBackRetried | api/__init__.py:1692-1702 | up to four reads until one returns the value |
| Api.FirstRefused | api/__init__.py:1725-1739 | the first value of a block that is unknown, unsupported or out of bounds |
| Api.AllowedMeaning | api/__init__.py:1725-1739 | a value is allowed in a known and supported register within its bounds |
| Api.CheckBlock | api/__init__.py:1725-1739 | the loop refuses exactly that value, with 404 or 400 |
| Api.HoldingMultiPut | api/__init__.py:1709-1762 | nothing is sent unless every value is allowed; then only copies of one request with all of them |
| Influx.EscapeOnePass | collector/outputs.py:195-197 | the four replacements amount to escaping each special character once |
| Influx.EscapeMeaning | collector/outputs.py:195-197 | character by character: a backslash before a backslash, space, comma or equals sign |
| Influx.QuoteMeaning | collector/outputs.py:211-212 | texts are quoted, with a backslash before each quote and backslash |
| Influx.UnescapeEscape | collector/outputs.py:195-197 | every name comes back |
| Influx.SplitJoin | collector/outputs.py:200-220 | splitting at unescaped separators undoes joining |
| Influx.ToLine | collector/outputs.py:200-220 | empty tags and absent fields are left out; without fields there is no line |
| Influx.LineMeaning | collector/outputs.py:200-220 | a line with one tag and one field, or without tags, character by character |
| Influx.JoinMeaning | collector/outputs.py:200-220 | more tags and fields follow behind separators |
| Influx.KeptTagsConcat | collector/outputs.py:203-206 | of the tags, in their order, those without a value are left out |
| Influx.KeptFieldsConcat | collector/outputs.py:208-217 | of the fields, in their order, the absent ones are left out |
| Influx.QuotedValue | collector/outputs.py:211-212 | a quoted text is found to its end whatever it holds, and comes back |
| Influx.FieldsRoundTrip | collector/outputs.py:208-219 | the fields of a line come back with their kinds, names and values |
| Influx.LineRoundTrip | collector/outputs.py:200-220 | a printed line is read back as the measurement, tags, fields and time stamp that went in, whatever characters names and texts hold |
| Energy.HourlyEnergy.Upsert | collector/outputs.py:595-605 | inserts a row or adds to it, counting missing values as 0 |
| Energy.Upserted | collector/outputs.py:595-605 | adds to one cell of the table and to no other |
| Energy.HourlyEnergy.Update | collector/outputs.py:554-593 | each column of the hour grows by its own power times the interval, other hours stay; every cell keeps holding the sum over the snapshots of its hour |
| Energy.OverMeaning | collector/outputs.py:554-593 | energy is power times interval |
| Energy.LoadOf | collector/outputs.py:248-255 | the load is at least the balance, and equal exactly when that is not negative |
| Energy.Conservation | collector/outputs.py:554-605 | in every hour load, charge and export are at least what the sources gave; equal exactly when no balance was negative |
| Energy.RowsConserve | collector/outputs.py:554-605 | so it is in the rows of the table |
| Alerts.LostSinceMeaning | collector/alerts.py:125-138 | the timer holds the time at which the current absence of the grid was first seen |
| Alerts.TimerIff | collector/alerts.py:125-138 | grid loss is active exactly when the grid was absent at every evaluation since one at least the threshold ago |
| Alerts.AlertEvaluator.Evaluate | collector/alerts.py:83-159 | each alert is active exactly under its condition, grid loss when the grid was absent long enough; published is each change and nothing else, so that per alert the states alternate, starting with ON |
| Alerts.AlternatesMeaning | collector/alerts.py:140-159 | of two events of one alert with none between them one is ON and one OFF; the first is ON |
| Alerts.AlertEvaluator.UpdateTimer | collector/alerts.py:125-138 | the timer follows the history |
| Throttle.Notifiers.RateOk | collector/notifiers.py:47-53 | any two sends with one key are at least 300 seconds apart |

## Left out

- Sockets, threads, locks, sleeps and clocks: connecting, sending, receiving, time-outs and the time are arguments. Database, MQTT, InfluxDB transport, SMTP, webhooks and HTTP routing are not part of this model.
- The heartbeat thread and the liveness probe, which rest on socket behaviour; an attempt says whether the socket is alive.
- A frame object is a value here: the parser returns updated frames instead of mutating one. Nothing else holds the frame while it is parsed.
- Floating-point rounding: values, scales, powers and times are exact rationals. `Settings.Round` is Python's round on them.
- Reading of texts: times of day, JSON settings, numbers. What could not be read is None.
- Settings and sensors have no spelling: the mapped settings are constructors with their register, scale and bounds, all others are `Unmapped`.
- Register names, labels and decoding, drivers, fault codes, capabilities and model detection; a set of supported registers stands for the model.
- The response fields of the two battery drivers beyond the cell summary; `_parse_status` and `_parse_cells` of the A5/5A driver; the JK driver.
- `_build_computed` beyond the load balance, and the statistics of the transports.
- A reply that arrives late or out of turn is only as good as the match function: the model shows that a returned frame was received in its own attempt, not that the inverter sent it as an answer.
- Dongles.Dongle.Write: does not model a write that the dongle forwards after its transaction has ended, nor other writers; the read-modify-write properties hold for one writer.
- QuickCharge.QuickChargeManager.Run: assumes that answered reads tell the truth; the manager has no means to notice otherwise.
- Engine.AutomationEngine.Tick: reads the clock once, where the code reads it again for each notification.
- Engine.AutomationEngine.Act: of the messages in log rows only the source chosen by a battery schedule is kept; the code itself only logs it.
- PassiveStream.ChunksConfluent: needs well-formed frames of at most 4096 bytes with the magic pair only where a frame starts; other streams are covered by PassiveStream.PassiveTransport.Run alone.
- Scanner.CrcValid: the parser itself never checks the CRC, and the model's parser does not either.
- Influx.LineRoundTrip: printed numbers are given as texts, of which only is assumed that they are not empty, not t or f, begin with no quote and hold no comma or space.
- Alerts.AlertEvaluator.Evaluate: the limits are those in effect; how they are read from the configuration, and where the fault code comes from, is left out.
- The bounds check of the API compares raw values and the clamp of the automations engineering units; nothing is claimed about their agreement.
- The forecast, Grafana, backup scripts and the other reference projects.
