# Asynchronous singing micro:bits — a verified model

A group of BBC micro:bits plays one song together. Before playing, the boards
run a small clock-synchronisation protocol over the radio:

1. **Election (`Init`).** Every board broadcasts MASTER_SELECTION packets
   carrying its serial number. It collects the foreign serials it hears and
   tracks the lowest one. Once it has heard `n - 1` serials and at least a
   second has passed, it sends one last announcement. The board whose own
   serial is the lowest becomes master.
2. **Exchange (`Sync`).** The master pings every discovered follower in turn
   (SYNC_PING). It answers each DELAY_REQ with a DELAY_RESP stamped with the
   arrival time. A follower that has its SYNC_PING and DELAY_RESP computes
   the PTP offset (section 11.3 of IEEE 1588-2008) and adds it to its clock
   from then on (`SystemTime`).
3. **Barrier.** The master broadcasts a deadline, SET_UNBLOCK_TIME. Every
   board sleeps until its adjusted clock reaches that deadline.

Every packet is nine bytes: the flag, then the serial and the timestamp,
each big-endian.

After `Sync`, `main` walks the song. It switches the audio pin at note
boundaries measured on the adjusted clock and leaves a 10 ms silent gap
after every note. The song itself is produced offline by a Python generator.
That generator merges runs of rests, cuts the score into segments at long
events, merges short segments, and stores each distinct segment once in an
event table addressed by `(start, length)` slices.

The Dafny project has one module per file:

| file | module | what it holds |
|---|---|---|
| `timestamps.dfy` | `Timestamps` | `uint8_t`, `uint32_t` and 32-bit `int` as subset types; C++ wrap-around, reinterpretation and truncating division written out |
| `packet.dfy` | `Packet` | the wire format (`send`'s buffer and `toPTP_packet`), with round trips both ways |
| `ptp.dfy` | `Ptp` | the offset estimate, the adjusted clock and the barrier wait, with the symmetric-delay and barrier theorems |
| `election.dfy` | `Election` | `master_selection` as a transition on a ballot value, its invariant, and the "exactly one master" theorem |
| `radio.dfy` | `Radio` | the radio as a finite trace of ticks; a tick is a clock reading plus the datagrams delivered during one sleep |
| `exchange.dfy` | `Exchange` | `follower_listener` and `on_delay_req` as transitions; the reference definition of the master's ping round |
| `clocksync.dfy` | `ClockSync` | class `Node`, which holds the firmware's globals, with `send`, the handlers, `Init`, `SyncAsMaster`, `SyncAsFollower` and `Sync` as methods proved against the functions above |
| `sequencer.dfy` | `Sequencer` | the playback loop of `main`, with its loop invariant |
| `music.dfy` | `Music` | `deduplicate_rests`, `segment_on_breaks`, `merge_event_segments` and `compress_segments` as loops, each proved equal to a specification function whose properties are proved |

**How the radio and the clock are modelled.** A handler runs once per
delivery, during the sleep of the loop that is polling at that moment. Each
waiting loop therefore consumes ticks from a finite trace. If the trace runs
out while the firmware is still polling, the result is `Stalled`; on the
device that loop would poll forever. Any clock reading taken outside a tick
is a parameter of the method that takes it. Two examples are the reading
behind the master's deadline and the one before the final sleep.

**Where the code and its design description differ, the model follows the
code:**
- The master ends a follower's ping phase on any DELAY_REQ, whatever serial
  it carries, not only one from that follower.
- The master forms its deadline from `SystemTime()`, the adjusted clock. It
  keeps the deadline in a local variable that shadows the global
  `time_to_unblock`, which stays untouched.
- The estimator's result is the correction to add, `-skew`, for a follower
  running `skew` ahead.
- `Init` leaves its loop only once `SystemTime() > sync_end`. This is a
  strict comparison between `uint32_t` values, and `sync_end` wraps around.
- `Init` does not clear `discovered_serials`.
- `merge_event_segments`' documentation promises that every yielded segment
  lasts at least `min_duration`. The last one can be shorter
  (`MergeShortTail`).

Integer widths are explicit throughout:
- `uint32_t` arithmetic is taken modulo 2^32.
- `(int)` of a `uint32_t` reinterprets it in two's complement.
- `int` sums wrap as on the target.
- C++ `/ 2` truncates toward zero.

## Model

| member | source | states |
|---|---|---|
| Timestamps.Wrap32 | CODAL-Bootstrap/source/Synchronization.h:27-28 | storing an integer in a `uint32_t` keeps its residue modulo 2^32 and leaves values already in range unchanged |
| Timestamps.Byte | CODAL-Bootstrap/source/Synchronization.cpp:78-85 | storing a shifted word in a `uint8_t` keeps its residue modulo 256 |
| Timestamps.Add32 | CODAL-Bootstrap/source/Synchronization.cpp:66 | a sum stored in a `uint32_t` agrees with the exact sum modulo 2^32 |
| Timestamps.Sub32 | CODAL-Bootstrap/source/Synchronization.cpp:229 | the `uint32_t` difference `a - b` is the amount that, added to `b`, gives `a`: `a - b` when `b <= a`, `a - b + 2^32` otherwise |
| Timestamps.AsSigned | CODAL-Bootstrap/source/Synchronization.cpp:290 | `(int)` of a `uint32_t` has the same low 32 bits and is negative exactly when the top bit is set |
| Timestamps.WrapI32 | CODAL-Bootstrap/source/Synchronization.cpp:290 | an overflowing `int` result wraps to the value with the same low 32 bits; in-range results are unchanged |
| Timestamps.Half | CODAL-Bootstrap/source/Synchronization.cpp:290 | C++ `/ 2` truncates toward zero: the remainder is -1, 0 or 1, and twice the quotient lies between 0 and the dividend |
| Timestamps.AsSignedOfWrap | CODAL-Bootstrap/source/Synchronization.cpp:290 | reading back the `uint32_t` image of an in-range `int` gives that `int` |
| Timestamps.Add32Add | CODAL-Bootstrap/source/Synchronization.cpp:66 | two `uint32_t` additions in a row land where one addition of the sum lands |
| Timestamps.SignedDifference | CODAL-Bootstrap/source/Synchronization.cpp:290 | if `a` lies `x` past `b` modulo 2^32, with `x` in `int` range, then `(int)(a - b) == x` |
| Timestamps.WrapI32Add | CODAL-Bootstrap/source/main.cpp:146 | wrapping an intermediate `int` sum does not change where a chain of wrapping additions lands |
| Packet.EncodeLayout | CODAL-Bootstrap/source/Synchronization.cpp:74-87 | `send`'s buffer holds the flag in byte 0, then the serial and the timestamp most significant byte first |
| Packet.Encode | CODAL-Bootstrap/source/Synchronization.cpp:74-87 | the nine-byte buffer starts with the flag; its full layout is `EncodeLayout` |
| Packet.Decode | CODAL-Bootstrap/source/Synchronization.cpp:127-135 | the flag is byte 0; the fields are given by `DecodeWraps`, and `DecodeEncode`/`EncodeDecode` make it the inverse of `Encode` |
| Packet.SplitWord | CODAL-Bootstrap/source/Synchronization.cpp:78-81 | the four bytes `send` writes for a word recompose to that word |
| Packet.JoinWord | CODAL-Bootstrap/source/Synchronization.cpp:132 | splitting the big-endian value of four bytes gives back those bytes |
| Packet.DecodeWraps | CODAL-Bootstrap/source/Synchronization.cpp:127-135 | `toPTP_packet` takes the flag from byte 0 and the fields as the shifted-byte sums reduced modulo 2^32 |
| Packet.DecodeEncode | CODAL-Bootstrap/source/Synchronization.cpp:127-135 | decoding the nine bytes `send` produced gives back the flag, the serial and the timestamp, for every byte flag and all 32-bit values |
| Packet.EncodeDecode | CODAL-Bootstrap/source/Synchronization.cpp:127-135 | every nine-byte frame is the encoding of what it decodes to, so no two frames decode alike |
| Packet.FramesDecode | CODAL-Bootstrap/source/Synchronization.cpp:86 | a receiver decodes every frame of a sent sequence back to the packet it was sent as |
| Ptp.Adjusted | CODAL-Bootstrap/source/Synchronization.cpp:64-67 | `SystemTime` minus the offset, modulo 2^32, is the raw clock; a zero offset leaves the clock unchanged |
| Ptp.OffsetEstimate | CODAL-Bootstrap/source/Synchronization.cpp:290 | the estimate `-((int)(t1_arrival - t1) + (int)(t2 - t2_arrival)) / 2`, with C++ wrap-around and truncation, lies in [-2^30, 2^30); its value under symmetric delays is `SymmetricDelayCancels` |
| Ptp.SymmetricDelayCancels | CODAL-Bootstrap/source/Synchronization.cpp:290 | with equal one-way delays and a follower `skew` ahead, the offset is exactly `-skew`, whatever the delay and whatever wrap-around the timestamps went through |
| Ptp.FollowerClockAgrees | CODAL-Bootstrap/source/Synchronization.cpp:64-67 | adding `-skew` to a clock running `skew` ahead reads the master's clock |
| Ptp.ExchangeSynchronises | CODAL-Bootstrap/source/Synchronization.cpp:290 | after one symmetric exchange the follower's `SystemTime` equals the master's clock at every instant |
| Ptp.ScenarioOffset | CODAL-Bootstrap/source/Synchronization.cpp:290 | 20 ms links with a follower 50 ms ahead give the offset -50 |
| Ptp.BarrierWait | CODAL-Bootstrap/source/Synchronization.cpp:314 | the final sleep's argument, added to the current adjusted time, reaches the deadline modulo 2^32 |
| Ptp.WakeAtDeadline | CODAL-Bootstrap/source/Synchronization.cpp:314 | a node that sleeps the computed wait wakes with its adjusted clock exactly at the deadline, for any offset |
| Ptp.MasterWait | CODAL-Bootstrap/source/Synchronization.cpp:221-229 | the master's wait is the time remaining while the deadline is ahead; once it has passed, the wait wraps to nearly 2^32 ms |
| Election.Start | CODAL-Bootstrap/source/Synchronization.cpp:101-102 | `Init`'s starting ballot (lowest = own serial, nothing heard) satisfies the election invariant |
| Election.Handle | CODAL-Bootstrap/source/Synchronization.cpp:137-155 | an own-serial packet or a non-MASTER_SELECTION flag changes nothing; otherwise the serial joins the discovered set and the invariant (counter = set size, lowest = minimum) is kept |
| Election.HandleIdempotent | CODAL-Bootstrap/source/Synchronization.cpp:137-155 | handling the same packet twice has the effect of handling it once |
| Election.HandleCommutes | CODAL-Bootstrap/source/Synchronization.cpp:137-155 | two packets handled in either order give the same ballot |
| Election.HandleAllHeard | CODAL-Bootstrap/source/Synchronization.cpp:137-155 | from `Init`'s ballot, whatever arrives, the discovered set is exactly the foreign serials announced, the counter is its size and lowest is the minimum |
| Election.MasterDecision | CODAL-Bootstrap/source/Synchronization.cpp:121 | `lowest_serial == serial_number` holds exactly when the own serial is below every discovered one |
| Election.MasterIffLeast | CODAL-Bootstrap/source/Synchronization.cpp:121 | a node that discovered every other member becomes master exactly when its serial is least in the group |
| Election.ExactlyOneMaster | CODAL-Bootstrap/source/Synchronization.h:37-51 | in a group of distinct serials with complete discovery, exactly one node ends as master, and it holds the smallest serial |
| Election.AscendingSorted | CODAL-Bootstrap/source/Synchronization.cpp:211 | a range-for over a `std::set` visits every serial exactly once, in increasing order |
| Exchange.Listen | CODAL-Bootstrap/source/Synchronization.cpp:233-254 | the listener never clears a completion flag |
| Exchange.ListenFills | CODAL-Bootstrap/source/Synchronization.cpp:242-253 | a delivery fills exactly the slot its packet is for, recording the packet's timestamp (and, for SYNC_PING, the arrival time), and leaves every other slot as it was |
| Exchange.ListenIgnores | CODAL-Bootstrap/source/Synchronization.cpp:242-253 | a packet that fills no slot (a SYNC_PING or DELAY_RESP for another serial, a MASTER_SELECTION, a DELAY_REQ) leaves all globals unchanged |
| Exchange.ListenIdempotent | CODAL-Bootstrap/source/Synchronization.cpp:233-254 | delivering the same packet twice has the effect of delivering it once |
| Exchange.ListenAllUntouched | CODAL-Bootstrap/source/Synchronization.cpp:233-254 | a run of deliveries none of which fills a slot leaves that slot's flag, value and arrival time unchanged |
| Exchange.ListenAllKeepsLast | CODAL-Bootstrap/source/Synchronization.cpp:233-254 | after a run of deliveries, a slot holds what the last packet filling it carried |
| Exchange.ListenAllKeepsGot | CODAL-Bootstrap/source/Synchronization.cpp:233-254 | once a slot is filled it stays filled |
| Exchange.Await | CODAL-Bootstrap/source/Synchronization.cpp:266-267 | a flag-polling wait from tick k ends at or after k within the trace, with its flag set or the trace used up, and a flag already set ends it at once |
| Exchange.AwaitConsumes | CODAL-Bootstrap/source/Synchronization.cpp:266-267 | a wait ends with its flag set or the trace used up, and its globals are the listener run over exactly the ticks it consumed |
| Exchange.Reply | CODAL-Bootstrap/source/Synchronization.cpp:171-184 | `on_delay_req` answers a delivery with one packet exactly when it is a DELAY_REQ, and that packet is a DELAY_RESP to the requester's serial stamped with the time the request arrived |
| Exchange.EveryRequestAnswered | CODAL-Bootstrap/source/Synchronization.cpp:171-184 | every DELAY_REQ, duplicates included, gets one DELAY_RESP addressed to its sender and carrying its arrival time, in order, and nothing else is sent |
| Exchange.PingPhase | CODAL-Bootstrap/source/Synchronization.cpp:212-216 | a phase consumes ticks from where it starts, within the trace; where it ends is `PhaseEndsAtFirstRequest` and `PhaseSkips` |
| Exchange.MasterRound | CODAL-Bootstrap/source/Synchronization.cpp:211-217 | a round consumes ticks from where it starts, within the trace; its behaviour is `MasterRoundSnoc`, `MasterRoundStalled` and `RoundSeesOneRequestPerFollower` |
| Exchange.PhaseEndsAtFirstRequest | CODAL-Bootstrap/source/Synchronization.cpp:212-216 | a ping phase ends right after the first tick that delivers a DELAY_REQ, from any serial; with none, it consumes the trace unfinished |
| Exchange.PhaseSkips | CODAL-Bootstrap/source/Synchronization.cpp:212-216 | ticks without a DELAY_REQ do not move where a phase ends |
| Exchange.PhaseSeesOneRequest | CODAL-Bootstrap/source/Synchronization.cpp:212-216 | a completed phase consumed exactly one tick with a DELAY_REQ |
| Exchange.RoundSeesOneRequestPerFollower | CODAL-Bootstrap/source/Synchronization.cpp:211-217 | a completed round consumed exactly one DELAY_REQ-bearing tick per follower before the deadline is formed |
| Exchange.MasterRoundSnoc | CODAL-Bootstrap/source/Synchronization.cpp:211-217 | one more follower runs one more phase, starting where the round stopped |
| Exchange.MasterRoundStalled | CODAL-Bootstrap/source/Synchronization.cpp:211-217 | once a phase runs out of ticks, later followers add nothing |
| Exchange.RoundSendsPingsAndReplies | CODAL-Bootstrap/source/Synchronization.cpp:211-217 | during the round the master sends only SYNC_PINGs to its followers and DELAY_RESPs, never SET_UNBLOCK_TIME |
| ClockSync.FirstExitSpec | CODAL-Bootstrap/source/Synchronization.cpp:114-117 | a do-while loop leaves right after the first pass whose test succeeds, never earlier; with none, it uses up its passes |
| ClockSync.ElectionEnd | CODAL-Bootstrap/source/Synchronization.cpp:113-117 | the election loop ends within the trace; where exactly is `ElectionExit` |
| ClockSync.ElectionExit | CODAL-Bootstrap/source/Synchronization.cpp:113-117 | `Init`'s loop leaves only after a pass that counted at least n - 1 serials with the clock past `sync_end`, never after an earlier pass |
| ClockSync.FreshElection | CODAL-Bootstrap/source/Synchronization.cpp:114-117 | from a fresh ballot, the election invariant holds after any number of passes |
| ClockSync.ElectionOutcome | CODAL-Bootstrap/source/Synchronization.cpp:113-121 | a fresh node whose election ended counted at least n - 1 foreign serials, exactly those announced to it, and is master exactly when its serial is below all of them |
| ClockSync.ElectionAgrees | CODAL-Bootstrap/source/Synchronization.h:37-51 | n fresh nodes with distinct serials, every one past its election and hearing only serials of the group: each heard all the others, so exactly one leaves `Init` as master, the one with the smallest serial |
| ClockSync.HearsEveryOther | CODAL-Bootstrap/source/Synchronization.cpp:117 | a node that heard only other members and counted `n - 1` serials heard every other member |
| ClockSync.FollowerSync | CODAL-Bootstrap/source/Synchronization.cpp:255-315 | the follower's run ends within the trace; its effect is `FollowerSyncConsumes` |
| ClockSync.FollowerSyncConsumes | CODAL-Bootstrap/source/Synchronization.cpp:255-315 | the follower's globals are the listener run over the ticks it consumed; it is released only when all three flags are set, and then wakes with its adjusted clock at the deadline it received |
| ClockSync.Node.constructor | CODAL-Bootstrap/source/Synchronization.cpp:36-59 | zero-initialised globals: nothing discovered, nothing sent, the election invariant holds |
| ClockSync.Node.SystemTime | CODAL-Bootstrap/source/Synchronization.cpp:64-67 | the adjusted clock, minus the offset modulo 2^32, is the raw reading |
| ClockSync.Node.Send | CODAL-Bootstrap/source/Synchronization.cpp:74-87 | the radio log grows by exactly the nine-byte encoding of the packet |
| ClockSync.Node.MasterSelection | CODAL-Bootstrap/source/Synchronization.cpp:137-155 | the election globals move exactly as `Election.Handle` says |
| ClockSync.Node.SleepElecting | CODAL-Bootstrap/source/Synchronization.cpp:116 | a sleep with `master_selection` listening handles every delivery in order |
| ClockSync.Node.OnDelayReq | CODAL-Bootstrap/source/Synchronization.cpp:171-184 | sends exactly `Exchange.Reply` and sets `follower_has_synced` exactly on a DELAY_REQ |
| ClockSync.Node.SleepAnswering | CODAL-Bootstrap/source/Synchronization.cpp:215 | a sleep with `on_delay_req` listening sends the replies to the tick's deliveries and sets the flag exactly when one was a DELAY_REQ |
| ClockSync.Node.FollowerListener | CODAL-Bootstrap/source/Synchronization.cpp:233-254 | the follower's globals move exactly as `Exchange.Listen` says |
| ClockSync.Node.SleepListening | CODAL-Bootstrap/source/Synchronization.cpp:267 | a sleep with `follower_listener` listening runs it over every delivery in order |
| ClockSync.Node.AwaitSlot | CODAL-Bootstrap/source/Synchronization.cpp:266-267 | a flag-polling wait ends where `Exchange.Await` says, with the globals it gives |
| ClockSync.Node.ElectionPass | CODAL-Bootstrap/source/Synchronization.cpp:114-116 | one pass sends one MASTER_SELECTION and advances the ballot by one tick |
| ClockSync.Node.ElectionPasses | CODAL-Bootstrap/source/Synchronization.cpp:113-117 | the do-while loop ends where `ElectionEnd` says, sent one MASTER_SELECTION per pass, and holds the ballot over the ticks it consumed |
| ClockSync.Node.Reset | CODAL-Bootstrap/source/Synchronization.cpp:91-102 | the assignments at the top of `Init`: the SYNC_PING and DELAY_RESP flags cleared, offset 0, counter 0, lowest = serial = own |
| ClockSync.Node.Decide | CODAL-Bootstrap/source/Synchronization.cpp:118-121 | one last MASTER_SELECTION, then `is_master` exactly when lowest equals own |
| ClockSync.Node.Elect | CODAL-Bootstrap/source/Synchronization.cpp:113-121 | the loop plus the decision: the MASTER_SELECTIONs sent, the ballot reached, the role decided only when the loop ended, and the invariant for a fresh node |
| ClockSync.Node.Init | CODAL-Bootstrap/source/Synchronization.cpp:89-123 | resets the globals, runs the election to where `ElectionEnd` says with `sync_end = SystemTime() + 1000`, sends one MASTER_SELECTION per pass plus a last one, and decides the role |
| ClockSync.Node.PingUntilSynced | CODAL-Bootstrap/source/Synchronization.cpp:213-216 | the inner loop ends where `Exchange.PingPhase` says and sends exactly what the phase's passes send |
| ClockSync.Node.PingPass | CODAL-Bootstrap/source/Synchronization.cpp:214-215 | one pass sends a SYNC_PING stamped with the raw clock, then the replies given during the sleep |
| ClockSync.Node.PingNext | CODAL-Bootstrap/source/Synchronization.cpp:212-216 | one follower's phase extends the round by exactly that follower |
| ClockSync.Node.PingFollowers | CODAL-Bootstrap/source/Synchronization.cpp:211-217 | the range-for over the followers, smallest serial first, does what `Exchange.MasterRound` says |
| ClockSync.Node.SyncAsMaster | CODAL-Bootstrap/source/Synchronization.cpp:201-230 | stalls exactly when the round does; otherwise it sends the round's packets followed by one SET_UNBLOCK_TIME with `SystemTime() + 500`, and wakes with its adjusted clock at that deadline |
| ClockSync.Node.ClearFlags | CODAL-Bootstrap/source/Synchronization.cpp:258-260 | the three completion flags are cleared and nothing else changes |
| ClockSync.Node.SyncAsFollower | CODAL-Bootstrap/source/Synchronization.cpp:255-315 | the three waits, the DELAY_REQ, the offset and the final wait are exactly `FollowerSync`'s |
| ClockSync.Node.Sync | CODAL-Bootstrap/source/Synchronization.cpp:317-324 | the master keeps its offset; a released node wakes with its adjusted clock at the deadline, the one it broadcast or the one it received |
| Sequencer.Start | CODAL-Bootstrap/source/main.cpp:130-138 | the loop starts at note 0, not articulated |
| Sequencer.StartPlaying | CODAL-Bootstrap/source/main.cpp:130-138 | before the loop, note 0 sounds and is due to end its duration after the start, so the loop invariant holds |
| Sequencer.Step | CODAL-Bootstrap/source/main.cpp:139-162 | a pass advances `cur_note` by at most one and never past the song; what it does is `StepIdle` and `StepExpires` |
| Sequencer.Steps | CODAL-Bootstrap/source/main.cpp:130-164 | the loop's note index stays within the song; what was played is `StepsPlaying` |
| Sequencer.StepIdle | CODAL-Bootstrap/source/main.cpp:142 | a pass before `next_change` changes nothing and writes nothing |
| Sequencer.StepExpires | CODAL-Bootstrap/source/main.cpp:142-161 | an expired note is silenced, gains its gap and is kept; an expired gap moves to the next note, or silences the pin after the last one |
| Sequencer.NoteBoundary | CODAL-Bootstrap/source/main.cpp:146-159 | across a note boundary `next_change` moves by exactly the next note's duration |
| Sequencer.ArticulatePlaying | CODAL-Bootstrap/source/main.cpp:143-148 | the first expiry of a note keeps the loop invariant |
| Sequencer.AdvancePlaying | CODAL-Bootstrap/source/main.cpp:149-160 | the expiry of a gap keeps the loop invariant |
| Sequencer.StepPlaying | CODAL-Bootstrap/source/main.cpp:139-162 | every pass keeps the loop invariant |
| Sequencer.StepsPlaying | CODAL-Bootstrap/source/main.cpp:130-164 | for any clock readings, the pin has played exactly the notes so far, each followed by its gap, and the player waits for the start plus their durations |
| Sequencer.FinishedRendition | CODAL-Bootstrap/source/main.cpp:139-164 | a finished song played every note in order, each followed by a silence, then silenced the pin |
| Sequencer.Play | CODAL-Bootstrap/source/main.cpp:130-164 | the loop stops when the song is over or the readings run out, with the writes and locals of `Steps`, and keeps the invariant |
| Music.DedupStepShape | tools/generate-music.py:149-155 | each step keeps rests positive and apart, passes notes on, and moves rest durations into the pending rest |
| Music.DedupScanShape | tools/generate-music.py:144-155 | the output so far holds the input's notes, and together with the pending rest it makes up the input's total duration |
| Music.Dedup | tools/generate-music.py:138-157 | the list `deduplicate_rests` yields; characterised by `DedupSpec` and `DedupCompacts` |
| Music.DedupSpec | tools/generate-music.py:138-157 | every note is kept, in order; no two rests are adjacent; every rest it yields is a positive `(0, d, 0)`; with no negative rest, the total duration is kept |
| Music.TrailingRun | tools/generate-music.py:147-148 | the length of the run of rests ending a sequence: within it, and preceded by a note when shorter than the sequence |
| Music.DedupCompacts | tools/generate-music.py:138-157 | with no negative rest, the output is exactly the input with every maximal run of rests replaced by one `(0, sum, 0)`, dropped when the sum is 0, and every note in place |
| Music.ScanCompacts | tools/generate-music.py:142-155 | with no negative rest, after each prefix the output is the compaction of all but the trailing rest run, and the pending rest is that run's total |
| Music.PendingNonNegative | tools/generate-music.py:150 | with no negative rest, the pending rest is never negative |
| Music.DedupExample | tools/generate-music.py:141-142 | the documented example gives `[(1, 2, 3), (0, 5, 0)]` |
| Music.DeduplicateRests | tools/generate-music.py:138-157 | the loop yields exactly `Dedup` |
| Music.SegmentStep | tools/generate-music.py:165-171 | a break closes the open segment and keeps the layout; any other event extends the open segment |
| Music.SegmentScanShape | tools/generate-music.py:161-171 | the closed segments and then the open one lay out the input; each closed segment ends at its first break |
| Music.Segments | tools/generate-music.py:160-173 | the list `segment_on_breaks` yields; characterised by `SegmentsSpec` |
| Music.SegmentsSpec | tools/generate-music.py:160-173 | the segments lay out the input exactly; none is empty or holds a break before its end; all but the last end with a break |
| Music.SegmentOnBreaks | tools/generate-music.py:160-173 | the loop yields exactly `Segments` |
| Music.MergeScanShape | tools/generate-music.py:181-193 | what was yielded, then what is held, lays out the input; every yielded segment lasts `min_duration`; what is held does not |
| Music.Merge | tools/generate-music.py:176-196 | the list `merge_event_segments` yields; characterised by `MergeSpec` and `MergeIdempotent` |
| Music.MergeSpec | tools/generate-music.py:176-196 | the merged segments lay out exactly the input's events, and all but the last last at least `min_duration` |
| Music.MergeShortTail | tools/generate-music.py:177-179 | a 30 ms input with `min_duration` 100 is yielded whole, although the documentation promises at least 100 |
| Music.MergeScanLong | tools/generate-music.py:183-193 | segments that each last `min_duration` pass through unchanged |
| Music.MergeIdempotent | tools/generate-music.py:176-196 | merging what has been merged changes nothing |
| Music.MergeEventSegments | tools/generate-music.py:176-196 | the loop yields exactly `Merge`, keeping `current_duration` equal to the held segment's total |
| Music.SumDurations | tools/generate-music.py:185-188 | the generator sum is the segment's total duration |
| Music.Distinct | tools/generate-music.py:210-214 | the dictionary's keys in insertion order, no more of them than segments; characterised by `DistinctSpec` and `DistinctOrder` |
| Music.DistinctSpec | tools/generate-music.py:210-214 | the dictionary's keys hold each segment of the input exactly once |
| Music.UsesSpec | tools/generate-music.py:211-214 | the index list of a key holds exactly the positions of that segment, ascending |
| Music.DistinctOrder | tools/generate-music.py:216-219 | the keys are in the order of their first positions |
| Music.FirstUseAscending | tools/generate-music.py:218-219 | every key's index list is non-empty and the first indices ascend in insertion order, so sorting by first index keeps that order |
| Music.SliceRoundTrip | tools/generate-music.py:220-225 | reading a key's `(start_index, length)` slice back from the event table gives the key |
| Music.SliceShared | tools/generate-music.py:220-225 | two keys share a slice exactly when they are equal |
| Music.CompressSpec | tools/generate-music.py:199-229 | every segment reads back from the event table at its slice; equal segments share a slice and different ones do not; the table is no longer than the input |
| Music.DistinctShorter | tools/generate-music.py:208-223 | the distinct segments hold no more events than all of them |
| Music.GroupSegments | tools/generate-music.py:209-214 | one empty slot per segment; keys in insertion order; each key maps to the positions using it |
| Music.PlaceSegment | tools/generate-music.py:224-225 | exactly the listed slots receive the slice; the others are unchanged |
| Music.LayOutKey | tools/generate-music.py:219-225 | one item appends its segment to the table and fills its slice into every slot that uses it |
| Music.Filled | tools/generate-music.py:227 | when every slot is filled, the slices in order |
| Music.CompressSegments | tools/generate-music.py:199-229 | the event table is the distinct segments in first-use order, and slot i holds segment i's slice in it |

## Left out

- Hardware calls are not modelled beyond their effect. This covers the radio driver (`enable`, `setGroup`, `recv`), the message bus (`listen`, `ignore`), `printf`, `microbit_serial_number()` and the audio pin object. Which handler listens is fixed by which loop polls; the serial number, clock readings and radio deliveries are parameters or ticks; pin writes are a list.
- Sleep durations (100 ms, 500 ms, 1 ms) are not modelled: one sleep is one tick of the trace.
- Concurrency is not modelled. A handler runs atomically during the sleep of the loop that polls; races between a handler and the main flow are not covered.
- Liveness is not modelled. Traces are finite, and a wait that outlives its trace ends `Stalled`.
- Every datagram is assumed to be exactly nine bytes; what `recv` does with shorter or longer datagrams is not modelled.
- `num_of_pings` is reset by `Init` and never used; the model keeps the field and nothing more. The same holds for the unused local `followers` set in `SyncAsMaster`.
- The commented-out code is not modelled: `on_sync`, `on_delay_resp`, the repeated SET_UNBLOCK_TIME sends and the polling loop in `SyncAsFollower`. `on_sync` and `on_delay_resp` are still declared in the header.
- `main` up to the playback loop (construction, `Init` and `Sync`) is not composed with the loop. The loop starts from a `SystemTime()` reading given as a parameter, and the final display loop is not modelled.
- The song array comes from a generated file that is not part of this model; it is a parameter.
- Everything in the generator outside the four functions is not modelled: MIDI parsing, floating-point period computation, splitting across boards, and file output. CODAL-Bootstrap/main-tmp.cpp and CODAL-Bootstrap/replace.py are not part of this model.
- Python generators are modelled as the lists they yield, collected in order. Events are integer triples.
- The `list`/`tuple` conversions in `compress_segments` are identities on event sequences. The `defaultdict` is a map with an explicit membership test.
- `sorted` by first index is modelled as insertion order; `Music.FirstUseAscending` proves the two agree.
- ClockSync.Node.Sync: its contract states the barrier property and the master's unchanged offset, not the whole new state. `SyncAsMaster` and `SyncAsFollower` state the whole new state.
- Music.DedupCompacts: the run-by-run reading holds only when no rest is negative. The generator resets the pending rest at a note only when it is positive, so a negative pending rest is carried past the note and offsets the next run.
- Sequencer: signed `int` overflow is undefined in C++. It is modelled as two's-complement wrap-around, as the target does.
- Packet: the `buffer[i] << 24` shifts overflow `int` for bytes of 128 and above. They are modelled the same way, as two's-complement wrap-around.
