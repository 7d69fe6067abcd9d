# Verification of the measurement pipeline

A Dafny model of the channel-state measurement node, from the radio callback to the host program that
reads its stream, with the ESP-NOW pair and the ping floods that make it measure, and proofs of what
these parts promise together.

| file | models |
|---|---|
| Postcard, Cobs, Wire | the wire contract: envelope and body in postcard form inside one COBS frame |
| WireBytes | the same contract in bytes: what stands where in a frame, without writer or reader |
| Stream | packets and bracketed log lines on one link, and the host's one pass over a capture |
| Session | the receive clock that does not wrap, the stream counter, the session announcement |
| Policy | the shape-distance detector, its moving average and hold window, the decimator |
| Stats, StatsHistory | the 16-entry transmitter table, and what it says of the history of frames heard |
| Handoff | the lock-free queue and waker between a callback and a task, in interleaved steps |
| Delivery | the gates, filters and policy a captured frame passes, and where it goes |
| EndToEnd | a run from the callback to the host's summary |
| StopRelay | the stop signal that each task takes and raises again |
| Magic, EspNow, Initiator, Pool | control frames, the responder, the initiator, the receive pool |
| Flood, BurstFlood | the two ping floods |
| Decimal, TextRow, Printers, Formatters | the CSV line formats and their byte-level writers |
| Calendar | calendar time of a UNIX timestamp |
| Bytes, Arith | bytes, integer widths, and the facts of non-linear arithmetic in use |

Code that updates state in place is a class or a method over an array, proved against a function of the
old state; the results about runs are lemmas about those functions. Time, radio answers, network
behaviour and the order of steps are parameters, so the results hold for all of them.

COBS follows Cheshire and Baker, "Consistent Overhead Byte Stuffing" (IEEE/ACM Transactions on Networking
7(2), 1999), with the trailing code byte a streaming encoder writes after a full block; the integer forms
are those of the postcard wire format, sections on varint(N) integers and the Serde data model types. The
crates that implement both are not part of this model.

## Where code and comments differ

The model follows the code.

- The comment on the score gives 65535 as its maximum (src/lib/csi/policy.rs:83-85). It is 65534
  (`Policy.ScoreRange`).
- A retry or an unnumbered frame uses up a pending resync although it does not set the last number
  (src/lib/stats.rs:358-364). `StatsHistory.ResyncThenCount` says what that costs, and
  `StatsHistory.ResyncProtectsIff` when it is so.
- A transmitter first heard without a sequence number is taken to have been at 0
  (src/lib/stats.rs:337-341; `StatsHistory.UnnumberedFirstFrame`).
- Under drop-oldest an overflow is counted even if the consumer emptied the queue meanwhile
  (src/lib/csi/delivery.rs:918-930; `Handoff.OverCountedIff`).
- The async queue is not cleared between runs (src/lib/csi/delivery.rs:583-599;
  `Handoff.StaleFramesIff` says when a frame of an earlier run is received).
- A printable line that opens with a tab may be counted by the host as a version error instead of as text
  (wire-tests/src/bin/wire-decode.rs:11-13); `Stream.PrintableVerdict` says which.
- The initiator's downlink is said to go back to broadcast when a responder drops out and to stay there
  with more than one (src/lib/initiator/esp_now.rs:150-176). Nothing is ever removed from the peer table,
  and a seventeenth responder clears it, which turns the downlink unicast (`Initiator.OverflowTurnsUnicast`); `Initiator.UnicastIff` says when it
  is so.
- Of a burst the receive pool is said to retain the sixteen newest frames (src/lib/esp_now_pool.rs:174-179). It
  keeps the first sixteen (`Pool.BurstKeepsTheFirst`).
- The burst flood is said to keep coverage fair when its buffer fills (src/lib/wifi/sta.rs:864-868). It
  does over bursts cut short in a row, but a complete burst forgets the position
  (`BurstFlood.CompleteBurstsForget`); `BurstFlood.FairIff` is the exact condition.

## Model

| member | source | states |
|---|---|---|
| Postcard.WidthRanges | src/lib/wire/mod.rs:510-516 | The group widths of the varint reader are those of 16, 32 and 64 bits: it takes exactly the values of `u16`, `u32` and `u64` |
| Postcard.VarintRoundTrip | src/lib/wire/mod.rs:510-516 | Every integer of a width reads back from its varint, whatever follows, in at most as many bytes as the width has groups |
| Postcard.PutI16 | src/lib/wire/mod.rs:395-432 | A zigzag `i16` reads back, in at most three bytes |
| Postcard.PutVec | src/lib/wire/mod.rs:395-432 | A length-prefixed vector within its capacity reads back |
| Cobs.StuffHasNoZero | src/lib/wire/mod.rs:510-516 | A stuffed frame holds no zero byte |
| Cobs.UnstuffStuff | src/lib/wire/mod.rs:541-546 | Unstuffing undoes stuffing for every byte string, with or without the delimiter and whatever follows it |
| Cobs.StuffLength | src/lib/wire/mod.rs:501-508 | Stuffing L bytes takes between L + 1 and L + 1 + L/254 bytes |
| Cobs.StuffLengthTight | src/lib/wire/mod.rs:501-508 | The upper bound is attained by every string without zeros |
| Cobs.StuffBlocks | src/lib/wire/mod.rs:510-516 | The stuffed bytes, block by block: one more than the length before up to 254 bytes without a zero, the zero after a shorter block dropped, 255 before a full one |
| Cobs.UnstuffBlocks | src/lib/wire/mod.rs:541-546 | What unstuffing reads of any bytes: a zero goes back after every block shorter than 254 that another follows, and it fails exactly when a code promises more than there is |
| Cobs.Encode | src/lib/wire/mod.rs:510-516 | The in-place encoder writes exactly the stuffed bytes and one delimiter, and fails exactly when they do not fit |
| Cobs.DecodeInPlace | src/lib/wire/mod.rs:541-546 | The decoder that overwrites its own input leaves exactly the unstuffed bytes, and fails exactly when unstuffing does |
| Wire.PutEnvelope | src/lib/wire/mod.rs:43-83 | An envelope reads back, within its maximum size, and opens with its version |
| Wire.PutMeta | src/lib/wire/mod.rs:179-222 | Receive metadata read back, within their maximum size |
| Wire.PutPayload | src/lib/wire/mod.rs:395-432 | Every payload variant reads back, within its maximum size |
| Wire.PutBody | src/lib/wire/mod.rs:87-156 | Every body reads back, within its maximum size; `WireBytes.FrameBytes` says which bytes it is |
| Wire.EncodedLength | src/lib/wire/mod.rs:501-508 | Every frame and its delimiter fit `MAX_ENCODED_LEN` |
| Wire.EncodeCobs | src/lib/wire/mod.rs:510-516 | Encoding into a buffer gives the frame and its delimiter, fails exactly if they do not fit, and never fails in a `MAX_ENCODED_LEN` buffer; `WireBytes.FrameBytes` and `Cobs.StuffBlocks` say which bytes the frame is |
| Wire.DecodeCobs | src/lib/wire/mod.rs:541-546 | Decoding in the caller's buffer gives what the specification decodes |
| Wire.FrameIsClean | src/lib/wire/mod.rs:510-516 | The only zero byte of a delimited frame is its last |
| Wire.DecodeAfterEncode | src/lib/wire/mod.rs:510-555 | Any envelope and body decode to themselves at `WIRE_VERSION`; at any other version the frame is refused for its version |
| Wire.VersionIsCheckedFirst | src/lib/wire/mod.rs:548-555 | An envelope of another version gives that error whatever bytes follow it, well-formed or not |
| Wire.TrailingBytesAreIgnored | src/lib/wire/mod.rs:548-555 | Bytes after the body change nothing, so re-encoding what was decoded need not give the frame back |
| WireBytes.VarintGroups | src/lib/wire/mod.rs:510-516 | The bytes of a varint are its seven-bit groups, lowest first, with the top bit on all but the last, and no more of them than it takes |
| WireBytes.VarintReads | src/lib/wire/mod.rs:551-553 | What a varint reader makes of any bytes it accepts: the groups up to the first without the top bit, never more than the width allows |
| WireBytes.VarintRefused | src/lib/wire/mod.rs:551-553 | It refuses exactly when no such byte is among the groups of the width, or the last of them is too large |
| WireBytes.I8Bytes | src/lib/wire/mod.rs:179-186 | A signed byte is its two's complement |
| WireBytes.I16Bytes | src/lib/wire/mod.rs:416-417 | 0, -1, 1, -2 are written as 0, 1, 2, 3 |
| WireBytes.OptU8Bytes | src/lib/wire/mod.rs:199-214 | An absent value is byte 0, a present one byte 1 and the value |
| WireBytes.OptU16Bytes | src/lib/wire/mod.rs:215-218 | An absent 16-bit value is byte 0, a present one byte 1 and its varint |
| WireBytes.OptU64Bytes | src/lib/wire/mod.rs:106-108 | An absent 64-bit value is byte 0, a present one byte 1 and its varint |
| WireBytes.OptBoolBytes | src/lib/wire/mod.rs:201-204 | An absent flag is byte 0, a present one byte 1 and 0 or 1 |
| WireBytes.SourceBytes | src/lib/wire/mod.rs:75-82 | The discriminants of the sources are 0, 1, 2 in the order declared |
| WireBytes.ChipBytes | src/lib/wire/mod.rs:486-499 | Those of the chips are 0 to 5 in the order declared |
| WireBytes.SecondaryBytes | src/lib/wire/mod.rs:226-233 | Those of the secondary channel are 0, 1, 2 in the order declared |
| WireBytes.BandwidthBytes | src/lib/wire/mod.rs:238-249 | Those of the bandwidths are 0 to 4 in the order declared, behind the tag of the option |
| WireBytes.PpduBytes | src/lib/wire/mod.rs:267-290 | Those of the PPDU formats are 0 to 10 in the order declared |
| WireBytes.SampleBytes | src/lib/wire/mod.rs:395-406 | Samples are their number as a varint and then one two's-complement byte each |
| WireBytes.EnvelopeBytes | src/lib/wire/mod.rs:43-57 | The bytes of an envelope: version, node, session, source, stream number |
| WireBytes.SessionBytes | src/lib/wire/mod.rs:98-109 | The bytes of an announcement: chip, the three parts of the version, time, epoch |
| WireBytes.NoVendorBytes | src/lib/wire/mod.rs:437-439 | No vendor fields are byte 0 |
| WireBytes.ClassicBytes | src/lib/wire/mod.rs:440-452 | The classic vendor fields are byte 1 and the fields as declared |
| WireBytes.HeBytes | src/lib/wire/mod.rs:453-480 | Those of the ax generation are byte 2 and the fields as declared |
| WireBytes.MetaBytes | src/lib/wire/mod.rs:179-221 | The nineteen fields of the metadata as declared |
| WireBytes.StimulusBytes | src/lib/wire/mod.rs:295-321 | The stimuli are bytes 0, 1, 2 in the order declared, each followed by its fields |
| WireBytes.HeaderBytes | src/lib/wire/mod.rs:326-337 | The header digest is byte 0 if absent, else byte 1 and its fields as declared |
| WireBytes.PayloadBytes | src/lib/wire/mod.rs:395-432 | The payloads are bytes 0, 1, 2 in the order declared, each followed by its fields |
| WireBytes.FrameBytes | src/lib/wire/mod.rs:87-140 | In a frame the envelope comes first, then 0 and metadata, stimulus, header and payload of a measurement, or 1 and an announcement |
| WireBytes.FlagIsRead | src/lib/wire/mod.rs:551-553 | A flag, and the tag of an option, is 0 or 1; any other byte is refused |
| WireBytes.LengthIsRead | src/lib/wire/mod.rs:551-553 | A discriminant that is none of the enumeration's, and a vector beyond its capacity or cut short, is refused |
| Stream.Console.WriteFrame | src/lib/logging/logging.rs:875-887 | A frame is always written: encoding cannot fail in the buffer used |
| Stream.Console.WritePacket | src/lib/logging/logging.rs:875-901 | A packet is written as the announcement's frame and a zero, if it carries one, and then the measurement's frame and a zero, both under its envelope |
| Stream.Console.WriteTextFramed | src/lib/logging/logging.rs:1902-1914 | A log line goes out between two delimiters |
| Stream.HostSeesEveryFrame | src/lib/logging/logging.rs:1902-1914 | For every interleaving of packets and log lines, zeros in the text included, the non-empty pieces between zeros are each packet's frames in order and the pieces of each line |
| Stream.UnframedTextLosesAPacket | src/lib/logging/logging.rs:1885-1900 | Without the bracketing, any line without zeros swallows the frame after it |
| Stream.FindZero | wire-tests/src/bin/wire-decode.rs:58-61 | The next piece of a capture ends at its first zero |
| Stream.AccountSlot | wire-tests/src/bin/wire-decode.rs:62-80 | One piece, decoded in place, is accounted for as specified; `Stream.SlotsAreCounted` and `Stream.PacketsAreCounted` say what that comes to |
| Stream.Summarise | wire-tests/src/bin/wire-decode.rs:50-80 | The host program's one pass over a capture is the fold of its accounting over the non-empty pieces |
| Stream.SlotsAtZero | wire-tests/src/bin/wire-decode.rs:58-61 | The pieces of a capture around a zero are those before it and those after it |
| Stream.SlotsNonZero | wire-tests/src/bin/wire-decode.rs:58-61 | Bytes without a zero are one piece, no bytes none |
| Stream.SlotsAreCounted | wire-tests/src/bin/wire-decode.rs:58-80 | Over any pieces: measurements, frames of another version, and pieces that neither decode nor are all printable are counted as many as there are, and every piece is counted or kept exactly once |
| Stream.TextsAre | wire-tests/src/bin/wire-decode.rs:78-79 | The text kept is, in order, exactly the pieces that do not decode and hold only tabs, line ends and printable ASCII |
| Stream.PacketsAreCounted | wire-tests/src/bin/wire-decode.rs:69-80 | For packets of any sessions: resets are the places where the session changes or the number falls, gaps those where it jumps by more than one, and measurements plus losses are the numbers spanned by the stretches between resets, plus one for each received again |
| Stream.CutsExist | wire-tests/src/bin/wire-decode.rs:71-79 | Every run of packets has such stretches |
| Stream.TextIsInvisible | wire-tests/src/bin/wire-decode.rs:58-80 | Log lines that decode as no frame change nothing the host counts of the measurements |
| Stream.CountsConserve | wire-tests/src/bin/wire-decode.rs:69-80 | Within a session numbered in increasing order, measurements plus losses are the range of stream numbers seen, with no resets |
| Stream.SessionsAnnounced | wire-tests/src/bin/wire-decode.rs:68-68 | The announcements listed are those carried by the packets, in order |
| Stream.AnnouncementsAre | wire-tests/src/bin/wire-decode.rs:68-68 | They are, in order, exactly those of the packets that carry one, each under its packet's envelope |
| Stream.HostAccountsForEveryFrame | wire-tests/src/bin/wire-decode.rs:50-80 | From the bytes on the link to the summary, for packets of any sessions among any quiet log lines: every measurement is counted, every announcement listed, a reset reported where the session changes or the number falls, a gap where it jumps; `csi + seq_lost` is the numbers spanned by the stretches between resets plus the repeats |
| Stream.OneSessionAccounts | wire-tests/src/bin/wire-decode.rs:50-80 | For one session's packets in increasing order no reset is reported and `csi + seq_lost == last - first + 1` |
| Stream.PrintableVerdict | wire-tests/src/bin/wire-decode.rs:11-13 | A printable piece is text, except that one which opens with a tab and goes on like a stuffed frame after the next eight bytes is reported as a frame of the version its second byte names |
| Stream.PrintableIsNotAFrame | wire-tests/src/bin/wire-decode.rs:11-13 | A printable piece never decodes as a frame of this version, and is counted as a version error if and only if it is tab-led in that way |
| Stream.TabLedLineCanLookLikeAFrame | wire-tests/src/bin/wire-decode.rs:11-13 | There are such pieces |
| Stream.PrintableMessageIsQuiet | wire-tests/src/bin/wire-decode.rs:11-13 | A message of printable bytes and zeros decodes as no frame |
| Stream.NothingIsJunk | wire-tests/src/bin/wire-decode.rs:78-80 | With printable log lines the host reports no decoding error, and every piece of a line is kept as text or counted as of another version |
| Session.WidenExactIff | src/lib/csi/session.rs:135-154 | In any clock state, a true time is recovered if and only if it is in the stated window around the time reached, written out in the clock's two words |
| Session.RunIsExact | src/lib/csi/session.rs:135-154 | If the first time is below 2^32 and each later one is within 2^31 - 1 of the latest so far, earlier or later, every time is recovered, across any number of wraps |
| Session.TooEarly | src/lib/csi/session.rs:135-154 | One microsecond further back, a time is lost |
| Session.TooLate | src/lib/csi/session.rs:135-154 | One microsecond further ahead, a time is lost |
| Session.Context.SetSession | src/lib/csi/session.rs:51-62 | A given session id is pinned, and its epoch is paired with the monotonic time it was given at |
| Session.Context.BeginRun | src/lib/csi/session.rs:105-118 | A run restarts clock, stream, setup and sounding, takes the mode's stimulus and header choice, owes an announcement, and keeps a pinned session id |
| Session.Context.SetSoundingInstance | src/lib/csi/session.rs:121-123 | The sounding the next measurements belong to |
| Session.Context.WidenTimestamp | src/lib/csi/session.rs:135-154 | The fields step as the widening does |
| Session.Context.NextEnvelope | src/lib/csi/session.rs:157-164 | Envelopes carry the stream numbers in order |
| Session.Context.TakeAnnouncement | src/lib/csi/session.rs:190-209 | One announcement a run, anchored to the epoch plus the time since it was given, or to the epoch itself if the clock is before that |
| Policy.ScoreRange | src/lib/csi/policy.rs:83-85 | The score is at most 65534, and equals it exactly for profiles without overlap |
| Policy.SampledPairs | src/lib/csi/policy.rs:45-54 | The sampled pairs are pair 0 and every step-th after it, up to 32 or all there are, spread as wide as the buffer allows |
| Policy.ProfileOfZeros | src/lib/csi/policy.rs:57-61 | The all-zero buffer has the zero profile |
| Policy.ProfileMoves | src/lib/csi/policy.rs:57-61 | Changing one byte of a buffer moves the cell of its pair, if it is sampled, by 16 times the change of the absolute value, and no other cell |
| Policy.ScoreIsL1 | src/lib/csi/policy.rs:80-86 | The score is 32767 times the L1 distance of the two profiles, each divided by its own total, rounded down; 0 if either total is |
| Policy.GainScoresNothing | src/lib/csi/policy.rs:45-86 | Multiplying all amplitudes of a buffer by one positive factor leaves its score unchanged |
| Policy.NothingSaturates | src/lib/csi/policy.rs:65-86 | The 64-bit arithmetic gives `floor(32767 * sum&#124;a_k*B - b_k*A&#124; / (A*B))`: nothing overflows or saturates |
| Policy.EwmaStep | src/lib/csi/policy.rs:65-79 | A cell moves towards its target without overshoot, by a sixteenth of the distance rounded down, and rests exactly within 15 units |
| Policy.EwmaConverges | src/lib/csi/policy.rs:65-79 | Under a repeated amplitude a cell rests after exactly the number of steps its distance needs, and never moves away |
| Policy.RestsWithin96 | src/lib/csi/policy.rs:65-79 | 96 steps suffice for every cell |
| Policy.SettledScore | src/lib/csi/policy.rs:65-86 | An average within 15 units of a buffer scores it at most `32767 * 30 * n / b_tot` |
| Policy.RepeatedBufferSettles | src/lib/csi/policy.rs:65-86 | A repeated buffer stays under that bound from then on |
| Policy.SettledAfter96 | src/lib/csi/policy.rs:65-86 | 96 repetitions settle any buffer against any average |
| Policy.RepeatFromRestart | src/lib/csi/policy.rs:65-86 | A buffer repeated from a restart scores 0 forever |
| Policy.ThresholdState.Measure | src/lib/csi/policy.rs:50-63 | The sampling loop gives the profile of a buffer, which `Policy.ProfileMoves` and `Policy.ProfileOfZeros` determine, and both totals |
| Policy.ThresholdState.Fold | src/lib/csi/policy.rs:65-79 | The comparing loop gives the distance to the average and folds the profile into it |
| Policy.ThresholdState.Score | src/lib/csi/policy.rs:45-86 | A call returns the score against the average it found, which is that of `Policy.ScoreIsL1`, and leaves the average updated or restarted |
| Policy.ThresholdState.Decide | src/lib/csi/policy.rs:90-97 | A crossing opens a hold window; inside it everything is reported |
| Policy.ReportedIff | src/lib/csi/policy.rs:90-97 | Over a run in time order, a measurement is reported if and only if it crosses the level or an earlier crossing's window still covers it |
| Policy.KeepsOneInN | src/lib/csi/policy.rs:114-123 | Of every `n` measurements exactly the first is kept; a factor of 0 is 1 |
| Policy.Decimator.Tick | src/lib/csi/policy.rs:114-123 | The counter steps as specified and never overflows |
| Stats.Statistics.RecordLoss | src/lib/stats.rs:274-277 | A loss is added to its cause and to the total, which stays the sum of the three causes |
| Stats.Statistics.RecordTxFrame | src/lib/stats.rs:323-378 | The loops over the table, the eviction and the gap count step the table as specified |
| Stats.Statistics.Reset | src/lib/stats.rs:103-124 | The table, the counters and each cause of loss are cleared, but not the clock |
| StatsHistory.TableIsHistory | src/lib/stats.rs:323-375 | After any run, the table holds exactly the 16 most recently heard distinct transmitters, once each, each with what its own frames since it was seated add up to |
| StatsHistory.TableHolds | src/lib/stats.rs:303-357 | A transmitter is in the table if and only if it was heard and fewer than 16 different ones were heard after its last frame |
| StatsHistory.EvictionIsRight | src/lib/stats.rs:345-357 | The entry replaced in a full table is the one transmitter with 15 others heard since |
| StatsHistory.FramesAreCounted | src/lib/stats.rs:358-360 | An entry's frame count is the number of frames heard from it since it was seated |
| StatsHistory.LossIsConserved | src/lib/stats.rs:357-378 | For a transmitter that stays seated, first-hand frames plus gaps plus the numbers skipped at output toggles are `last - first + 1`, across any number of 12-bit wraps and toggles |
| StatsHistory.StepCountedIff | src/lib/stats.rs:365-373 | A step of the true number is counted exactly if and only if it is below 500 |
| StatsHistory.TouchIs | src/lib/stats.rs:357-373 | What one frame does to its transmitter's entry, field by field, with the modulus 4096 and the bound 500 written out |
| StatsHistory.UnnumberedFirstFrame | src/lib/stats.rs:337-341 | A transmitter first heard without a number, in a retry or not, is charged a gap counted from 0, if its next number is in 2..499 |
| StatsHistory.ResyncThenCount | src/lib/stats.rs:358-364 | Whatever frame comes first after a toggle uses up the resync; the numbered frame after it is measured from it if it is numbered and no retry, and else from before the toggle |
| StatsHistory.ResyncProtectsIff | src/lib/stats.rs:358-373 | What is charged after a toggle does not depend on where the transmitter stood before it if and only if the first frame after it is numbered and no retry |
| Handoff.EveryRunWakes | src/lib/esp_now_pool.rs:174-219 | No wake-up is lost in any interleaving of producer and consumer, under either overflow policy and for both queues |
| Handoff.RecheckIsNeeded | src/lib/esp_now_pool.rs:203-219 | Without the second look after registering, a consumer can park on a queued frame that was already announced |
| Handoff.ReceivedInOrder | src/lib/csi/delivery.rs:637-664 | The consumer sees each frame at most once, in order of run and stream number |
| Handoff.NumbersRestart | src/lib/csi/delivery.rs:583-595 | Stream numbers alone do not order what is received: each run starts them again |
| Handoff.StaleFramesIff | src/lib/csi/delivery.rs:583-595 | Some schedule hands the consumer a frame of an earlier run, after a run has begun, exactly if the queue held something when it began |
| Handoff.DropsAreCounted | src/lib/csi/delivery.rs:916-931 | Frames offered are received, queued, in hand or lost, and overflows are the losses plus the discards that found nothing |
| Handoff.OverCountedIff | src/lib/csi/delivery.rs:918-931 | An overflow is over-counted exactly when the consumer took the whole queue inside it |
| Handoff.OverCountHappens | src/lib/csi/delivery.rs:918-931 | A schedule that counts an overflow and loses nothing, for every capacity |
| Handoff.UninterruptedDelivery | src/lib/csi/delivery.rs:916-931 | The steps of a delivery nobody interrupts, taken together, are the one-step delivery |
| Handoff.BacklogIs | src/lib/csi/delivery.rs:916-931 | With nothing taken out, drop-oldest keeps the last frames that fit and the other policy the first ones, and overflows are those that did not fit |
| Delivery.CsiDelivery.FatesAreCounted | src/lib/csi/delivery.rs:799-879 | Frames received are those filtered, suppressed and oversize, by their counters, and those that went to the raw callback, met a closed gate or were delivered |
| Delivery.CsiDelivery.Capture | src/lib/csi/delivery.rs:799-879 | A callback frame meets one fate, decided in the order of the gates; it leaves by one path at most, is recorded for its transmitter exactly if delivered, and takes a stream number exactly if delivered; the counters agree with the fates |
| Delivery.CsiDelivery.FateIs | src/lib/csi/delivery.rs:389-406 | What stops a frame, in the configured fields: a set peer filter exactly the frames of everybody else, a set minimum exactly those of a lower mode, the gate exactly if one of its three inputs is off |
| Delivery.CsiDelivery.PacketIs | src/lib/csi/delivery.rs:864-878 | A delivered packet, part by part: envelope, metadata at the widened time, the score or the buffer, the header if it is switched on, the stimulus of the mode |
| Delivery.HeardIs | src/lib/csi/delivery.rs:884-898 | The statistics are told the transmitter the header names, else the stimulus's, bit 11 of the frame control field, and the sequence number, which is withheld on the ESP32-C5 |
| Delivery.CsiDelivery.Judge | src/lib/csi/delivery.rs:805-855 | What stops a frame before it is built, and its score; `Delivery.CsiDelivery.FateIs` puts the former in the configured fields |
| Delivery.CsiDelivery.PolicyAdmits | src/lib/csi/delivery.rs:548-575 | A pending reset takes effect first; then the average, the hold window, the decimator, the verdict and the score are those of one step of the policy in force |
| Delivery.CsiDelivery.ControlFrameNamesItself | src/lib/csi/esp.rs:57-77 | In a controlled run a measured control frame is labelled with its own sounding number, whichever one was recorded last |
| Delivery.CsiDelivery.BuildPacket | src/lib/csi/mod.rs:45-58 | A frame is stamped, announced if it is the run's first, and numbered; an oversize one is not even stamped |
| Delivery.CsiDelivery.Deliver | src/lib/csi/delivery.rs:884-949 | Per-transmitter statistics, then exactly one of callback, queue and log |
| Delivery.CsiDelivery.DeliverAsync | src/lib/csi/delivery.rs:916-931 | The async queue after a delivery, the overflow count and the wake |
| Delivery.CsiDelivery.ApplyPublishGate | src/lib/csi/delivery.rs:443-449 | The cached gate is the conjunction of its inputs |
| Delivery.CsiDelivery.SetRuntimeReporting | src/lib/csi/delivery.rs:472-493 | The policy changes, its state restarts, gate and policy stay in agreement, and the change is signalled |
| Delivery.CsiDelivery.SetCsiLoggingEnabled | src/lib/csi/delivery.rs:184-191 | Gate and intent stay in agreement |
| Delivery.CsiDelivery.SetCsiCallback | src/lib/csi/delivery.rs:249-262 | Gate, mode and callback stay in agreement |
| Delivery.CsiDelivery.ClearCsiCallback | src/lib/csi/delivery.rs:265-268 | Clearing the callback turns delivery off |
| Delivery.CsiDelivery.SetCsiRawCallback | src/lib/csi/delivery.rs:278-282 | Gate and raw callback stay in agreement |
| Delivery.CsiDelivery.SetMinSigMode | src/lib/csi/delivery.rs:372-375 | The cached filter flag follows the minimum signal mode too |
| Delivery.CsiDelivery.SetCsiOutputEnabled | src/lib/csi/delivery.rs:296-300 | Gate and output switch stay in agreement, and the toggle is signalled |
| Delivery.CsiDelivery.TakeOutputChanged | src/lib/csi/delivery.rs:980-995 | The rate task takes the signal and asks for a resync |
| Delivery.CsiDelivery.OpenQueue | src/lib/csi/delivery.rs:645-649 | The first await switches delivery to the queue only from `Off` |
| Delivery.CsiDelivery.ResetGates | src/lib/csi/delivery.rs:583-599 | Every gate closes between runs; the queue and the filters stay |
| Delivery.CsiDelivery.SetPeerFilter | src/lib/csi/delivery.rs:345-355 | The cached filter flag says whether any filter is set |
| EndToEnd.CaptureRun | src/lib/csi/delivery.rs:799-879 | Over any run of callbacks, the packets delivered are one session, numbered from 0 without gaps, the first alone announcing it; under a peer filter all of them are from that peer; a frame is filtered exactly if it is from somebody else under such a filter or of a lower mode than the set minimum, and every frame is stopped exactly by what the gates, the filter and the policy say of it |
| EndToEnd.ReachesIff | src/lib/csi/delivery.rs:389-406 | Which frames get as far as the policy, in the configured fields |
| EndToEnd.OneInNIsAdmitted | src/lib/csi/delivery.rs:521-577 | Under decimation, of the frames that pass gates and filter exactly the first of every `n` is admitted, over any run of callbacks |
| EndToEnd.OneInNOfTheRun | src/lib/csi/delivery.rs:799-848 | In a run under decimation a frame is suppressed exactly if it gets as far as the policy and the number that did before it is no multiple of `n` |
| EndToEnd.CrossingOrHeldIsAdmitted | src/lib/csi/delivery.rs:521-577 | Under a threshold, a frame that passes gates and filter is admitted if and only if its score crosses the level or an earlier crossing still holds, over any run of callbacks in time order |
| EndToEnd.HostCountsTheLosses | wire-tests/src/bin/wire-decode.rs:58-80 | Whatever of a run is lost on its way to the host, the host counts every packet that got through and, as lost, exactly the others between the first and the last of them |
| EndToEnd.HostSeesTheRun | wire-tests/src/bin/wire-decode.rs:58-80 | With nothing lost, the host counts every packet, misses none and sees one announcement |
| StopRelay.SignalIsNeverLost | src/lib/node.rs:100-114 | Whatever tasks, stops and timers do, after a stop the signal is raised or a task is about to raise it |
| StopRelay.StopOfAFreshRun | src/lib/node.rs:100-114 | After one stop there is exactly one copy: on the flag, or in exactly one task's hand |
| StopRelay.NobodyIsStranded | src/lib/csi/delivery.rs:968-979 | While a listening task is left, some relay step can be taken |
| StopRelay.EverybodyStops | src/lib/node.rs:1368-1393 | Every schedule of relay steps is finite and ends with every listener done and the signal up |
| StopRelay.StoppedRunEnds | src/lib/node.rs:1368-1393 | So does every run, from its start through whatever precedes the stop |
| StopRelay.QuietIsDone | src/lib/node.rs:1368-1393 | A stopped run in which no task can take a step has joined: every task is done, timers included |
| StopRelay.ClearAtTheEnd | src/lib/node.rs:1350-1393 | From a stop on, the tasks take at most two steps each in any order; when none can take another all are done, and the reset leaves no copy of the signal to the next run |
| Magic.SerializeWithMagic | src/lib/protocol.rs:79-94 | The frame written is the magic, if sent, and the body; it fails exactly if they do not fit |
| Magic.ParseSerialized | src/lib/protocol.rs:120-136 | Parsing undoes serializing in either pairing mode, whatever padding follows |
| Magic.RolesDoNotMix | src/lib/protocol.rs:13-14 | Neither role accepts the other's frames |
| Magic.FindMagic | src/lib/protocol.rs:104-110 | The scan finds the first window equal to the magic, or there is none |
| Magic.NoStraddle | src/lib/protocol.rs:104-110 | The magic has no border, so it cannot match across the end of a prefix without it |
| Magic.FindsOwnNumber | src/lib/protocol.rs:104-110 | Behind any prefix without the magic and before any padding, a control frame yields its own number |
| Magic.NothingWithoutMagic | src/lib/protocol.rs:104-110 | A payload without the magic yields nothing |
| WireBytes.MagicBytes | src/lib/protocol.rs:13-14 | The magics are 0xA8912BF0 and its complement, lowest byte first |
| WireBytes.ControlBytes | src/lib/protocol.rs:23-94 | The bytes of a control frame: in automatic pairing the magic, then the flag and the number |
| WireBytes.MagicIsRequired | src/lib/protocol.rs:120-136 | In automatic pairing a frame is read only behind its magic, and then as in manual pairing |
| EspNow.MacInWord | src/lib/responder/esp_now.rs:169-187 | An address survives the trip through a word |
| EspNow.Shared.IngestControlPacket | src/lib/responder/esp_now.rs:285-432 | The responder's state steps as specified for every received frame, accepted or not; `EspNow.FrameIs`, `EspNow.IngestLocks` and `EspNow.LockIs` say what that comes to |
| EspNow.LockIsForever | src/lib/responder/esp_now.rs:301-309 | Once locked on, the responder keeps its initiator, whatever it receives |
| EspNow.FrameIs | src/lib/responder/esp_now.rs:296-351 | After any history a frame is accepted exactly if the responder is not in raw listening, it parses, and it comes from the initiator if one is locked on to; otherwise it changes nothing. Accepted, it is charged the numbers skipped since the last, on a forward jump only |
| EspNow.IngestLocks | src/lib/responder/esp_now.rs:353-402 | What one frame does to lock, counter and owed beacon, in any state |
| EspNow.LockIs | src/lib/responder/esp_now.rs:353-366 | Over any run of frames: the responder is connected if and only if it was configured with a peer or, transmitting and not in raw listening, got a frame that parses and whose sender could be added; it belongs to that peer, or to the sender of the first such frame |
| EspNow.ManualLock | src/lib/responder/esp_now.rs:301-398 | In manual pairing the lock is the peer throughout, and the healthcheck counter is the number of frames accepted, modulo 2^16 |
| EspNow.CountsSinceLock | src/lib/responder/esp_now.rs:353-398 | In automatic pairing the counter is the number accepted since the lock |
| EspNow.BeaconOwed | src/lib/responder/esp_now.rs:400-402 | A beacon is owed exactly once something was accepted, if the responder transmits |
| EspNow.ModeIsHistory | src/lib/responder/esp_now.rs:410-431 | The streak is the saturated length of the trailing run of equal flags, and the responder reports if and only if it was configured to or three accepted packets in a row were silent |
| EspNow.MissesConserve | src/lib/responder/esp_now.rs:333-351 | Accepted in increasing order, packets received plus packets missed are the range of soundings |
| EspNow.SomebodyReports | src/lib/responder/esp_now.rs:410-431 | Over a network that loses, repeats and reorders, with one initiator: exactly the delivered packets are accepted, the lock is on the initiator and exists once a delivery whose sender could be added allowed it, and after three of them at least one end reports |
| EspNow.DeliveredIsAccepted | src/lib/responder/esp_now.rs:296-351 | Over such a network the packets accepted are those delivered, in the order of delivery, in either pairing mode |
| EspNow.DeliveryLocks | src/lib/responder/esp_now.rs:353-366 | The first delivery whose sender the driver can add locks the responder on |
| Initiator.UnicastIffOneResponder | src/lib/initiator/esp_now.rs:164-176 | With at most sixteen responders about, control frames are unicast exactly while a single one has been heard, and go to it |
| Initiator.UnicastIff | src/lib/initiator/esp_now.rs:98-176 | Whoever is about, control frames are unicast if and only if the last discovery was the first one or a multiple of sixteen after it |
| Initiator.OverflowTurnsUnicast | src/lib/initiator/esp_now.rs:143-146 | A seventeenth responder turns the downlink unicast to itself alone |
| Initiator.ReplyIs | src/lib/initiator/esp_now.rs:105-122 | A reply counts by its sender alone in manual pairing, by the responder's four magic bytes alone in automatic pairing |
| Initiator.DownlinkIs | src/lib/initiator/esp_now.rs:164-176 | The downlink is the configured responder, else the only one known, else broadcast |
| Initiator.RangeIs | src/lib/initiator/esp_now.rs:277-278 | Ceiling and floor of the rate for every configured rate |
| Initiator.PacedIs | src/lib/initiator/esp_now.rs:405-445 | The thirty-second success in a row raises the rate by a tenth, a failure lowers it by a quarter, each by at least 1 Hz and within the range; another error only breaks the row |
| Initiator.PeriodIs | src/lib/initiator/esp_now.rs:94-96 | The period is a second over the rate, rounded down, and at least a microsecond |
| Initiator.Driver.HandleReply | src/lib/initiator/esp_now.rs:98-148 | The peer table steps as specified for accepted and refused replies |
| Initiator.Driver.Sound | src/lib/initiator/esp_now.rs:358-450 | A sounding carries the current number; the number advances exactly on success; pace, interval and deadline follow the outcome |
| Initiator.PaceStaysInRange | src/lib/initiator/esp_now.rs:277-279 | The adaptive rate stays between floor and ceiling |
| Initiator.EightFailuresReachTheFloor | src/lib/initiator/esp_now.rs:430-435 | Eight failures in a row take any rate to the floor |
| Initiator.SuccessesReachTheCeiling | src/lib/initiator/esp_now.rs:411-420 | 768 successes in a row take any rate back to the ceiling |
| Initiator.Period | src/lib/initiator/esp_now.rs:94-96 | The sounding period, at least 125 microseconds for every adaptive rate |
| Pool.FramePool.Receive | src/lib/esp_now_pool.rs:133-182 | The callback queues the admitted frame if there is room, drops the newest otherwise, and wakes in either case; raw-drop mode keeps nothing |
| Pool.FramePool.Take | src/lib/esp_now_pool.rs:197-199 | Frames come out in the order they went in |
| Pool.CopyFrame | src/lib/esp_now_pool.rs:153-172 | The two copying loops fill a slot with the sender, the payload and zeros |
| Pool.BurstKeepsTheFirst | src/lib/esp_now_pool.rs:150-181 | Of a burst with nothing taken out the pool keeps the first frames that fit, each cut to 250 bytes, a missing sender as the zero address |
| Pool.NothingAdmitted | src/lib/esp_now_pool.rs:150-152 | A callback leaves the pool as it is exactly if the sender record or the data is missing, the length is not positive, or every slot is taken |
| Pool.ControlSurvivesThePool | src/lib/esp_now_pool.rs:133-182 | A control packet comes out of the pool as it was sent, even where its padding is cut |
| Flood.IntervalIs | src/lib/wifi/sta.rs:501-502 | The period is a second over the rate asked for, rounded down; 100 Hz by default and at least 1 Hz |
| Flood.Flooder.Pass | src/lib/wifi/sta.rs:523-559 | One pass of the loop sends and advances the deadline as specified; a refused attempt uses up a sequence number too |
| Flood.RunIsSpaced | src/lib/wifi/sta.rs:523-559 | Whatever stalls, full buffers and clock readings occur, no datagram runs ahead of its place in the schedule |
| Flood.RateBound | src/lib/wifi/sta.rs:523-559 | From the start of any pass up to any later time, at most `(t - s)/interval + 17` datagrams are sent |
| Flood.NeverAheadFromTheStart | src/lib/wifi/sta.rs:501-503 | From its start the flood sends at most `(t - start)/interval` |
| Flood.BoundIsMet | src/lib/wifi/sta.rs:523-559 | After a long stall, 17 datagrams do leave in no time |
| Flood.PassRepaysTheDebt | src/lib/wifi/sta.rs:525-535 | A pass that meets no full buffer leaves no debt older than itself |
| Flood.SendingIsSpaced | src/lib/wifi/sta.rs:536-559 | At most 16 datagrams a pass, each in its place |
| BurstFlood.Burster.Fire | src/lib/wifi/sta.rs:843-879 | A burst serves the targets in turn from its start until one is refused, and resumes there |
| BurstFlood.Burster.Pass | src/lib/wifi/sta.rs:831-883 | A burst is fired exactly if one is due after clamping, and the deadline moves on even if it was cut short |
| BurstFlood.BlockedBurstsGoRound | src/lib/wifi/sta.rs:843-871 | Over a stretch of bursts cut short, targets are served in cyclic order |
| BurstFlood.FairWhileBlocked | src/lib/wifi/sta.rs:843-871 | Over such a stretch two targets' counts differ by at most 1 |
| BurstFlood.PairGap | src/lib/wifi/sta.rs:843-879 | Over any run, one target leads a later one by exactly the complete bursts that began between them, up to where the run began and where it stands |
| BurstFlood.EdgeGap | src/lib/wifi/sta.rs:843-879 | The first target leads the last one by exactly the complete bursts that began away from the head of the list, up to where the run began and where it stands |
| BurstFlood.SpreadBound | src/lib/wifi/sta.rs:843-879 | No pair of targets is further apart than the first and the last |
| BurstFlood.FairIff | src/lib/wifi/sta.rs:843-879 | From the head of the list, every pair of targets stays within one datagram if and only if at most one complete burst began away from the head, the next burst counting if it is to begin there |
| BurstFlood.CompleteBurstsForget | src/lib/wifi/sta.rs:872-877 | A schedule for every length: a burst cut after one target, then a complete one, serves the first target twice as often as the second |
| Decimal.SignedReads | src/lib/logging/logging.rs:1203-1237 | Every integer reads back from its decimal text |
| Decimal.PaddedReads | src/lib/logging/logging.rs:1240-1254 | Six-digit fractions read back |
| Decimal.SignedDigits | src/lib/logging/logging.rs:1203-1237 | The text of an integer is a minus sign if it is negative and the ASCII digits of its absolute value, lowest last, no more than it takes |
| Decimal.PaddedDigits | src/lib/logging/logging.rs:1240-1254 | Padded text is the lowest digits, zeros included |
| Decimal.HexDigits | src/lib/logging/logging.rs:1258-1264 | A byte in hexadecimal is its two digits, high first, in either case |
| Decimal.WriteI8Sep | src/lib/logging/logging.rs:1175-1200 | A sample and its separator, in at most five characters |
| Decimal.WriteU32 | src/lib/logging/logging.rs:1203-1223 | A 32-bit number in decimal |
| Decimal.WriteI32 | src/lib/logging/logging.rs:1227-1236 | A signed number in decimal, the least one included |
| Decimal.WriteU32Pad6 | src/lib/logging/logging.rs:1240-1254 | The last six digits of a number, zeros included |
| Decimal.WriteHexU8 | src/lib/logging/logging.rs:1258-1264 | A byte in upper-case hexadecimal |
| Printers.ListReadsBack | src/lib/logging/logging.rs:1001-1117 | Every complete array-list line reads back: columns, samples and address |
| Printers.NumbersAre | src/lib/logging/logging.rs:1001-1099 | Numbers with a separator after each, or between them |
| Printers.ListLineIs | src/lib/logging/logging.rs:1001-1117 | An array-list line in full |
| Formatters.ToolLineIs | src/lib/logging/logging.rs:1279-1428 | A CSI-tool line in full |
| Formatters.SliceWriter.WriteStr | src/lib/logging/logging.rs:954-963 | A piece is written whole or not at all |
| Formatters.SliceWriter.WriteField | src/lib/logging/logging.rs:1004-1008 | After a number and a comma, either all the text so far is there or the buffer is within 22 characters of its end |
| Formatters.FormatArrayListInto | src/lib/logging/logging.rs:1001-1117 | For every buffer: 0 exactly if the head, five characters a sample and the tail might not fit, otherwise the complete line |
| Formatters.FormatCsiToolInto | src/lib/logging/logging.rs:1279-1428 | The line shows as many samples as fit, and all that its `len` column announces if there is room for the longest of them |
| Formatters.WriteTextArrayPacket | src/lib/logging/logging.rs:1120-1135 | In the real buffer no frame is refused |
| Formatters.WriteCsiToolPacket | src/lib/logging/logging.rs:1534-1560 | In the real buffer no line is cut, whatever the cap |
| Formatters.HeadsAreShort | src/lib/csi/text_row.rs:139-204 | Whatever a frame holds, both heads fit: 175 and 195 characters at most |
| Formatters.ToolReadsBack | src/lib/logging/logging.rs:1279-1428 | A complete tool line reads back: 25 columns and the samples, whose number is the last column |
| TextRow.RowsAreInRange | src/lib/csi/text_row.rs:93-204 | Apart from the timestamp every column of a row fits 16 bits |
| TextRow.RowNames | src/lib/csi/text_row.rs:133-151 | Address, samples and timestamp of a row, in the frame's fields |
| TextRow.ClassicList | src/lib/logging/logging.rs:1004-1055 | The columns of an array-list line on the classic chips, in the frame's fields |
| TextRow.HeList | src/lib/logging/logging.rs:1004-1055 | Those of the ax-generation chips; the C6 prints three more than the C5 |
| TextRow.ToolList | src/lib/logging/logging.rs:1279-1400 | The nineteen numeric columns of a CSI-tool line, in the frame's fields |
| Calendar.UnixToDateTime | src/lib/time.rs:42-76 | For every timestamp the loops end with a valid date whose forward count is that timestamp |
| Calendar.MonthsFillTheYear | src/lib/time.rs:84-113 | The months add up to the year, so the month loop never reaches 13, where it would not end |
| Calendar.CalendarIsMonotone | src/lib/time.rs:42-76 | Dates are ordered exactly as their timestamps |
| Calendar.DateIsUnique | src/lib/time.rs:42-76 | No other valid date has the same count |
| Calendar.PosixYears | src/lib/time.rs:79-88 | The count of years is the closed formula of POSIX.1-2017, Base Definitions, section 4.16 |
| Calendar.MonthsAre | src/lib/time.rs:79-113 | The lengths of the months |
| Calendar.PosixTime | src/lib/time.rs:42-76 | The count of a date is the formula of POSIX.1-2017, Base Definitions, section 4.16, with the day of the year in closed form |

## Left out

- Calls into esp-radio, esp-hal, smoltcp and the executor: each is a nondeterministic answer given as a parameter; register writes and serial drivers are absent.
- Weak memory: every atomic access and every queue operation is one step, with one producer; the node's own emission of frames next to the callback is not modelled.
- The radio bring-up, band and PHY forcing, and the per-chip configuration copies.
- The mapping of the radio's receive fields to metadata, and the layout and format tables: a captured frame comes with them. The minimum signal mode filter, which the ax-generation chips ignore, is modelled as on the others.
- The parsing of a captured 802.11 header into its digest.
- Raw listening and raw callbacks beyond being one fate of a frame or one mode of the receive pool; the rate experiments' transmit hooks.
- The round-robin flood over several targets, the floods' periodic reports, and the refresh of the burst flood's target list.
- The responder's sending loop, its error backoff and its choice of reply address; periodic re-adding of the initiator as a peer.
- The simplex modes of the ESP-NOW pair, the station's DHCP loop and its reconnection.
- The free-text log format, the defmt path and the transports below the formatters; the pieces in which the standard library writes a formatted integer are taken to be sign, digits and separator.
- Wall-clock limits of 64-bit microseconds: times are assumed one interval, hold window or epoch short of 2^64.
- Counters nobody resets within a run (frames received, control packets accepted, soundings missed) are unbounded; the 32-bit ones wrap.
- The lengths of vectors are those a 64-bit host writes and reads; the encoding is the same below 2^14.
- Stream.Summarise: the timestamps, the per-source, per-format and per-transmitter tallies and the header and retry counts the host also keeps are not modelled, nor is the trimming of the text it keeps.
- Stream.AccountSlot: leaves out the same fields of the summary.
- Stream.CountCsi: numbers are unbounded here; when the largest 32-bit stream number is received twice in a row, the program's addition overflows.
- Handoff.StaleFramesIff: a run begins between two frames of the producer; one that begins while a frame is in its hand is not modelled.
