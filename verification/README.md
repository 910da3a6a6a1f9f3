# Verified models of the streaming stack

Dafny models of the parts of this repository that keep state over a whole run: the compressed
recorder, the agent's H.264 tap, the TLV connection between worker and server, the ownership of
converted frames in the ZMQ bridge, the vectorised colour conversion and the PNG extractor of the
client. `dafny verify dfyconfig.toml` checks everything.

Each component has a specification and the code beside it. The code is a class over the fields that
the C or Python code updates, or a method over arrays, with the same loops and branches; each of its
methods is proved to make one step of the specification. What the repository promises is then proved
about every run of the specification. The specification itself is held to what can be told without
it: the modules `...Inputs`, `ByteOrder` and `VuyxColours` state what must come out in terms of the
events, offers, socket answers, calls and bytes that go in, and of the published standards.

| part | specification and theorems | code |
|---|---|---|
| Annex B scanner, parameter sets | `AnnexB.dfy`, `ParamSets.dfy` | loops in `AnnexB.dfy`, `Recorder.dfy` |
| periodic IDR slots | `IdrSchedule.dfy` | loops in `IdrSchedule.dfy` |
| one recorded stream | `SegmentSpec.dfy`, `SegmentRuns.dfy`, `PacingRuns.dfy`, `SegmentInputs.dfy`, `IdrInputs.dfy` | `Recorder.dfy` |
| finalised files in their directory | `Directory.dfy`, `DirectoryRuns.dfy` | `Recorder.dfy` |
| event queue and writer thread | `QueueProtocol.dfy` | `EventQueue.dfy` |
| one tap subscriber | `TapScan.dfy`, `TapSpec.dfy`, `TapRuns.dfy`, `TapBlocks.dfy`, `TapSlots.dfy`, `TapInputs.dfy` | `Tap.dfy` |
| TLV wire protocol | `Protocol.dfy`, `ByteOrder.dfy`, `SenderSpec.dfy`, `SenderInputs.dfy` | `TcpSender.dfy`, `ReceiveLoop.dfy` |
| BGR frames, their pictures and regions | `BgrFrames.dfy`, `BgrPictures.dfy`, `PictureInputs.dfy`, `CropRegion.dfy` | `BgrBridge.dfy`, loops in `CropRegion.dfy` |
| VUYX to BGR24 | `Avx2.dfy`, `VuyxColours.dfy`, `VuyxConvert.dfy` | loops in `VuyxConvert.dfy` |
| PNG extractor | `PngExtractor.dfy` | class in `PngExtractor.dfy` |

File operations, sockets and clocks are inputs: the outcome of every open, write, rename, `send` and
`recv` and every clock reading is a parameter, so a statement about every run covers every failure,
every partial send and every schedule. Threads are interleaved atomic steps.

## What does not hold, and exactly when it does

- A payload with stray bytes before its first start code is not split the same in a file as on its
  own: those bytes join the last NAL of the packet before it, or become a NAL of their own when they
  complete a start code whose zeros end that packet. `AnnexB.Appendable` is the exact condition, for
  one packet (`AnnexB.NalsConcatIff`) and for a whole file (`SegmentRuns.FileReadsBack`). Packets
  without start code, and packets with only zeros before their first, always meet it.
- A finalised file can be replaced: its name is the second of its start, and the rename overwrites a
  file of that name. START, keyframe, STOP twice within one second leave one file
  (`DirectoryRuns.FileReplacedInOneSecond`). All files are on disk exactly when no name was used twice
  (`Directory.OnDiskIff`); under a wall clock that never steps back, exactly when no epoch's first file
  has the name of an earlier epoch's last (`DirectoryRuns.FilesSurviveIff`).
- "A file is open exactly when the stream is not waiting" fails in one case, the failed storage check
  while recording, which leaves the file open; the next keyframe opens another file and the first one
  is never finalised (`SegmentRuns.FileOpenInRunIff`, `SegmentRuns.StrandedFileIsForgotten`). The
  model keeps the path as the code has it, as the mode `Stranded`. Where no mount is required it
  cannot happen (`SegmentRuns.InStepWithoutMount`).
- Periodic IDR slots of different streams are interval / max_streams apart exactly as long as the
  64-bit product (max_streams - 1) * interval does not wrap: up to 72340172 s for 256 streams
  (`IdrSchedule.SlotsApartIff`, `IdrSchedule.LongIntervalsCollide`).
- With `drop_to_idr` off, a stall in sync is exactly what breaks the recovery of a tap subscriber, at
  one publish and over a run (`TapRuns.StallBreaksWithoutDrop`, `TapRuns.GoodThroughoutIff`). A
  subscriber placed in a slot starts well exactly when the connection before it did not die in the
  first flush of a publish, which leaves a packet in the slot (`TapSlots.PlacementStartsWellIff`,
  `TapSlots.PacketLeftBehind`).
- The agent's search for an IDR unit finds only what is there, but misses some: in a packet without
  start code, behind a short start code that begins at a header byte just read, and where the packet
  ends within a byte of the header. It agrees with the recorder's scanner exactly when no NAL of the
  type is missed or another one is read (`TapScan.ScannersAgreeIff`). A bare IDR packet is framed for
  sending but never ends a recovery (`TapRuns.BarePacketNeverRecovers`).
- The parameter sets sent ahead of a recovery hold other NALs too exactly when a packet that began
  with an SPS or PPS did, since it is cached whole (`TapBlocks.RecoverySetsIff`,
  `TapBlocks.PictureSentAhead`).
- The sender admits payloads up to 10 MiB, the receiver up to seven bytes less; a payload in between
  ends the receive loop (`SenderSpec.OwnPacketReceivable`, `Protocol.DecodeStops`).
- A request for the last frame can be shown a picture from before a restart: the cache outlives the
  decoder, and a new decoder counts its pictures from zero again. The answer is the picture decoded
  last exactly when the request does not meet a cached frame of an earlier decoder with the same
  counter, key flag, size, format and colours (`BgrPictures.ReplyIsLastIff`,
  `BgrPictures.OldPictureShown`).
- A direct call of `tcp_sender_send_stream_start` puts a second STREAM_START on the connection
  (`SenderSpec.DirectStartBreaks`).
- A direct call of `tcp_sender_send_stream_stop` keeps the framing exactly when its send completes,
  since its failure does not leave the connected state (`SenderSpec.DirectStopIff`).
- `bytes_written` counts the packets of a file and their start codes, not the parameter sets in front.

## Model

| member | source | states |
|---|---|---|
| `AnnexB.FindStartCode` | stream_server/src/compressed_recorder.c:354-375 | the loop that stops three bytes before the end finds the first start code at or after `start`, and reports none exactly when there is none |
| `AnnexB.PayloadHasStartCode` | stream_server/src/compressed_recorder.c:377-380 | true exactly when some position holds a start code |
| `AnnexB.NalsConcat` | stream_server/src/compressed_recorder.c:415-448 | splitting commutes with appending, Split(a + b) = Split(a) + Split(b), whenever only zeros precede the first start code of b, also when a zero at the end of a turns b's short code into a long one |
| `AnnexB.NalsConcatIff` | stream_server/src/compressed_recorder.c:415-448 | for every a and b with a start code, the same holds if and only if only zeros precede b's first code, or only zeros lie between it and a code that b's first byte or two complete with zeros at the end of a |
| `AnnexB.ScanOfJoin` | stream_server/src/compressed_recorder.c:354-375 | round trip: units joined with 3- or 4-byte codes and any zero padding are scanned back to their NALs, for all NALs without start code that do not end in zero |
| `AnnexB.ScanIsLossless` | stream_server/src/compressed_recorder.c:415-448 | on arbitrary bytes the payload is the bytes before the first code and then the units seen, in order and disjoint; their NALs hold no start code and do not end in zero, and they are what is reported |
| `ParamSets.CacheHoldsLatest` | stream_server/src/compressed_recorder.c:328-352 | after any NALs, cached set i is the start code plus the last NAL of its kind within 1 MiB, and empty exactly when there was none |
| `ParamSets.H264Types` | stream_server/src/compressed_recorder.c:387-397 | for every setting of the header's fields, H.264 types 7 and 8 are the sets kept, in this order, type 5 is a keyframe, and no other type has a meaning |
| `ParamSets.HevcTypes` | stream_server/src/compressed_recorder.c:399-412 | for every setting of the two header bytes, H.265 types 32, 33 and 34 are the sets kept, in this order, types 16 to 21 are keyframes, and no other type has a meaning |
| `ParamSets.OtherNals` | stream_server/src/compressed_recorder.c:382-413 | an empty NAL, a single byte of H.265 and any other codec mean nothing |
| `ParamSets.HeaderOrder` | stream_server/src/compressed_recorder.c:469-482 | a file starts with SPS and PPS, or with VPS, SPS and PPS, and can start exactly when each of these is known |
| `ParamSets.NalsOfStored` | stream_server/src/compressed_recorder.c:457-467 | a packet as stored splits into its own NALs; a bare payload becomes one NAL and loses only trailing zeros |
| `ParamSets.HeaderSplits` | stream_server/src/compressed_recorder.c:469-482 | the parameter sets at the front of a file split into exactly the cached sets, in order, trailing zeros aside |
| `ParamSets.FileSplitsIff` | stream_server/src/compressed_recorder.c:457-482 | the recorder's scanner, run over a file, returns the header's NALs and then those of every packet in order if and only if every packet as stored can be appended to what stands before it |
| `ParamSets.CleanPacketsAppend` | stream_server/src/compressed_recorder.c:457-467 | packets without start code, which are stored behind one, and packets with only zeros before their first always can |
| `IdrSchedule.SlotIsLeast` | stream_server/src/compressed_recorder.c:620-637 | a time is the stream's slot exactly when it is the least time at or after `from` that is congruent to the stream's offset |
| `IdrSchedule.NextPeriodicIdr` | stream_server/src/compressed_recorder.c:620-637 | in wrapping 64-bit arithmetic the loop ends, wraps nowhere, and returns the least slot two seconds or more from now, for every interval the configuration can hold |
| `IdrSchedule.StepTo` | stream_server/src/compressed_recorder.c:629-636 | stepping by the interval reaches the only time on the stream's grid in the interval that starts at `least` |
| `IdrSchedule.StepPast` | stream_server/src/compressed_recorder.c:662-664 | the catch-up loop ends on the first slot after now, however many were missed |
| `IdrSchedule.OffsetInInterval` | stream_server/src/compressed_recorder.c:608-618 | a stream's offset lies inside the interval even when the product wraps |
| `IdrSchedule.OffsetsSpread` | stream_server/src/compressed_recorder.c:608-618 | offsets of two streams differ by at least interval / max_streams, both ways round the interval |
| `IdrSchedule.SlotsApart` | stream_server/src/compressed_recorder.c:608-665 | any two times on the slots of two streams are at least interval / max_streams apart |
| `IdrSchedule.SlotsApartIff` | stream_server/src/compressed_recorder.c:601-618 | all slots of all pairs of streams keep that distance if and only if the last stream's 64-bit product does not wrap |
| `IdrSchedule.ShortIntervalsAreExact` | stream_server/src/compressed_recorder.c:601-618 | up to 72340172 seconds no product wraps, for up to 256 streams |
| `IdrSchedule.LongIntervalsCollide` | stream_server/src/compressed_recorder.c:608-618 | one second more and streams 1 and 256 of 256 are closer than their share |
| `SegmentRuns.EveryFileIsAKeyframeRun` | stream_server/src/compressed_recorder.c:523-845 | over every run of START, VIDEO and STOP with any failures: each finalised file and the open one is a consecutive run of processed packets, from one with a keyframe, behind the parameter sets in force at it; files do not overlap and follow in order |
| `SegmentRuns.RolloverLosesNothing` | stream_server/src/compressed_recorder.c:761-845 | without failures the segments closed in an epoch, with the open one, hold exactly the packets processed since the first one that may start a file: none lost, doubled or reordered; the packets processed are all those received (`SegmentInputs.EpochsAreSessions`); which of their files are still on disk is `DirectoryRuns.EveryPacketOnDiskIff` |
| `SegmentRuns.FirstCutIsFirst` | stream_server/src/compressed_recorder.c:788-804 | that packet is the first with a keyframe at which all parameter sets are known |
| `SegmentRuns.CloseIsComplete` | stream_server/src/compressed_recorder.c:523-562 | finalising the open file makes the epoch's files hold every recordable packet |
| `SegmentRuns.FileOpenIffNotWaiting` | stream_server/src/compressed_recorder.c:248-253 | one event keeps "an active stream has a file open exactly when it is not waiting" if and only if it is not a packet whose storage check fails while recording |
| `SegmentRuns.FileOpenInRunIff` | stream_server/src/compressed_recorder.c:770-845 | a whole run, with any other failures, is so at every point if and only if no packet of it meets a failed storage check while recording |
| `SegmentRuns.InStepWithoutMount` | stream_server/src/compressed_recorder.c:229-246 | where no mount is required every run is so at every point |
| `SegmentRuns.StrandedFileIsForgotten` | stream_server/src/compressed_recorder.c:667-694 | after that check the next keyframe opens another file, and the packets of the first are in no finalised file |
| `SegmentRuns.FileReadsBack` | stream_server/src/compressed_recorder.c:457-482 | scanning a recorded file returns exactly the cached parameter sets in order (trailing zeros aside) and then the NALs of each recorded packet as stored, in order, if and only if each packet can be appended to what stands before it, which single NALs and packets with only zeros ahead always can |
| `SegmentRuns.NalsAreCodeFree` | stream_server/src/compressed_recorder.c:415-448 | no reported NAL is empty or holds a start code |
| `SegmentInputs.EpochsAreSessions` | stream_server/src/compressed_recorder.c:718-787 | in every run, with any failures, the packets processed in each epoch are exactly the non-empty payloads received since its START, provided that it armed the stream, and codec and armed state are those that the last START or STOP implies: no packet is passed over |
| `SegmentInputs.SessionsAreRecorded` | stream_server/src/compressed_recorder.c:761-845 | without failures the files of each epoch hold exactly the payloads received in that session, from the first that may start a file |
| `SegmentInputs.CutsIff` | stream_server/src/compressed_recorder.c:788-794 | a packet may start a file if and only if one of its NALs is a keyframe and each set the codec needs is among the NALs received in the session so far, this packet included |
| `SegmentInputs.PacketIsRecorded` | stream_server/src/compressed_recorder.c:770-845 | in every run, whatever failed before: a packet of an armed stream whose own operations succeed ends up as the last packet of the open file if and only if a file was open or it may start one |
| `SegmentInputs.EveryOutcome` | stream_server/src/compressed_recorder.c:770-845 | in every run under a wall clock that never steps back, for every outcome of the packet's own operations: when a file is open afterwards, what it holds, and that the file before it is kept exactly when it was full, the packet may start the next, and the rename succeeds |
| `PacingRuns.FileNamesIncrease` | stream_server/src/compressed_recorder.c:667-694 | with a wall clock that never steps back, finalised files of an epoch start at least `segment_sec` apart, so their one-second names strictly increase, whatever fails in between |
| `Directory.OnDiskIff` | stream_server/src/compressed_recorder.c:484-562 | renaming a series of files, each replacing one of its name, leaves all of them with their own bytes and nothing else if and only if no two had the same name |
| `DirectoryRuns.FilesSurviveIff` | stream_server/src/compressed_recorder.c:523-562 | over every run with any failures and a wall clock that never steps back, every finalised file is still in the directory if and only if no epoch's first file has the name (second and codec) of an earlier epoch's last |
| `DirectoryRuns.EveryPacketOnDiskIff` | stream_server/src/compressed_recorder.c:761-845 | without failures every payload received in a session, from the first that may start a file, is in a finalised file of its epoch, and all these are in the directory if and only if the same holds |
| `DirectoryRuns.FileReplacedInOneSecond` | stream_server/src/compressed_recorder.c:484-535 | a concrete run, everything succeeding: two epochs in one second, two complete files, one of them left |
| `PacingRuns.PeriodicKeepsDistance` | stream_server/src/compressed_recorder.c:593-665 | in any run, whatever the wall clock does, no periodic request is sent within two seconds of the stream's request before it |
| `PacingRuns.PlansOfStreamsApart` | stream_server/src/compressed_recorder.c:639-665 | at any points of any two runs, whatever the wall clock does, the periodic requests planned for two streams are at least interval / max_streams apart, catch-up included |
| `PacingRuns.RequestsBackOff` | stream_server/src/compressed_recorder.c:564-591 | from STREAM_START until a file opens, whatever the wall clock does, n >= 3 requests take at least 7 + 10 (n - 3) seconds |
| `IdrInputs.StartAsks` | stream_server/src/compressed_recorder.c:740-748 | a START that arms the stream asks for a keyframe at once, and only such a START |
| `IdrInputs.WaitingAsksIff` | stream_server/src/compressed_recorder.c:788-796 | until a file opens, a packet that cannot start one asks again if and only if the last request lies 2, 5 or 10 seconds back, after one, two or more requests |
| `IdrInputs.FullFileAsksIff` | stream_server/src/compressed_recorder.c:806-834 | a full file that cannot turn over asks when that is first seen, unless a request lies less than two seconds back, and else exactly when the backoff allows |
| `IdrInputs.PeriodicSentIff` | stream_server/src/compressed_recorder.c:639-665 | the periodic request is sent if and only if its slot has come and no request lies less than two seconds back; the next slot lies beyond now, within two seconds and one interval |
| `IdrInputs.PeriodicInRunIff` | stream_server/src/compressed_recorder.c:639-665 | the same over every clocked run, for each packet appended to a file that is not full; a slot is then always planned |
| `Recorder.RecorderStream.CacheParamSet` | stream_server/src/compressed_recorder.c:328-352 | leaving an equal set alone makes no difference: the set is the start code plus the NAL unless it is too long |
| `Recorder.RecorderStream.AnalyzeNal` | stream_server/src/compressed_recorder.c:382-413 | the type tests cache the set of that kind or report a keyframe, for both codecs |
| `Recorder.RecorderStream.AnalyzePayload` | stream_server/src/compressed_recorder.c:415-448 | the in-place scan equals a fold over the split: the cache absorbs every NAL in order, and the flag holds exactly when some NAL is a keyframe |
| `Recorder.RecorderStream.SkipZeros` | stream_server/src/compressed_recorder.c:436-438 | the inner loop removes exactly the trailing zeros |
| `Recorder.RecorderStream.WriteParamSets` | stream_server/src/compressed_recorder.c:469-482 | on success the file grew by the codec's sets in order |
| `Recorder.RecorderStream.WriteSegmentPacket` | stream_server/src/compressed_recorder.c:696-716 | on success the file grew by the packet in Annex B form and both counters by it |
| `Recorder.RecorderStream.CloseSegment` | stream_server/src/compressed_recorder.c:523-562 | the directory changes exactly when a file is finalised and the rename succeeds: its name then holds exactly its bytes, replacing what had the name; the segment counts as closed and the counters are cleared |
| `Recorder.RecorderStream.OpenSegment` | stream_server/src/compressed_recorder.c:667-694 | opening starts an empty segment at this packet, or leaves the waiting state behind |
| `Recorder.RecorderStream.RequestIdr` | stream_server/src/compressed_recorder.c:564-591 | an unforced request waits out the backoff of its predecessors |
| `Recorder.RecorderStream.MaybeRequestPeriodicIdr` | stream_server/src/compressed_recorder.c:639-665 | plans, skips or sends the periodic request and moves the plan past now |
| `Recorder.RecorderStream.ProcessStart` | stream_server/src/compressed_recorder.c:718-748 | makes the START step: the open file is finalised, everything forgotten, the stream armed |
| `Recorder.RecorderStream.ProcessStop` | stream_server/src/compressed_recorder.c:750-759 | makes the STOP step |
| `Recorder.RecorderStream.ProcessVideo` | stream_server/src/compressed_recorder.c:770-845 | makes the VIDEO step for all outcomes, which is `SegmentInputs.EveryOutcome` told from the packet; file bytes, `bytes_written` and `packets_written` match the segment |
| `Recorder.RecorderStream.RunThread` | stream_server/src/compressed_recorder.c:853-898 | the event loop over any events ends with exactly the specification's epochs, the open file closed, and the directory that renaming their files one after the other leaves |
| `QueueProtocol.EveryInterleavingIsConsistent` | stream_server/src/compressed_recorder.c:853-898 | in every interleaving of producers, writer and stop: queued video bytes stay within the limit, delivery is FIFO, drops are counted, none is refused before the stop; which offers are dropped is `QueueProtocol.DroppedIff` |
| `QueueProtocol.WriterLeavesNothing` | stream_server/src/compressed_recorder.c:1038-1069 | the writer ends only with every accepted event processed, so the clean-up loop of stop finds nothing |
| `QueueProtocol.OnlyVideoIsDropped` | stream_server/src/compressed_recorder.c:1089-1096 | START and STOP are never dropped |
| `QueueProtocol.DroppedIff` | stream_server/src/compressed_recorder.c:1075-1111 | in every interleaving: an offer after the stop is refused; one before it is dropped if and only if it is video and its bytes, with the video bytes accepted and not yet taken out, exceed the limit; every other offer is accepted |
| `QueueProtocol.EveryOfferIsJudged` | stream_server/src/compressed_recorder.c:1075-1111 | each offer meets one verdict, in the order in which the offers were made |
| `QueueProtocol.RoundsTakeInOrder` | stream_server/src/compressed_recorder.c:857-876 | n rounds of the writer, stopping or not, process the n oldest queued events in order and leave the rest |
| `QueueProtocol.WriterDrains` | stream_server/src/compressed_recorder.c:853-898 | after the stop one round per queued event and one more turn end the writer with all of them processed in order |
| `QueueProtocol.ShutdownSavesEverything` | stream_server/src/compressed_recorder.c:1038-1069 | from offer to disk: without file failures the files finalised in every epoch hold exactly the packets accepted in that session from the first that may start a file, for every interleaving, and all of them are in the directory if and only if no two had the same name |
| `EventQueue.EventList.Enqueue` | stream_server/src/compressed_recorder.c:1075-1111 | the linked list, tail pointer and counts make the step of the queue; a refused or dropped node is not linked; which these are is `QueueProtocol.DroppedIff` |
| `EventQueue.EventList.Link` | stream_server/src/compressed_recorder.c:1098-1108 | the node becomes the last and the list stays one chain |
| `EventQueue.EventList.Dequeue` | stream_server/src/compressed_recorder.c:867-876 | takes the oldest event, clears the tail with the last node, and keeps the byte count equal to the sum |
| `EventQueue.EventList.TakeTurn` | stream_server/src/compressed_recorder.c:857-876 | an event, the end, or waiting, as the specification's turn |
| `TapScan.ContainsNalType` | strem_agent_server/src/h264_tap.c:359-381 | the search answers yes exactly when one of the NALs whose header it reads has the type, and then the recorder's scanner reports a NAL of it |
| `TapScan.ContainsIff` | strem_agent_server/src/h264_tap.c:359-381 | for every packet, the types found are those of the reported NALs that are not missed, where a NAL is missed by one of three guards: no start code at all, a short code at a header byte just read, an end within a byte |
| `TapScan.FoundIsThere` | strem_agent_server/src/h264_tap.c:359-381 | for every packet, a type that the agent finds is one the recorder's scanner reports |
| `TapScan.ScannersAgreeIff` | strem_agent_server/src/h264_tap.c:359-381 | for every packet, the two agree on a type if and only if no NAL of it is missed or another one of it is read |
| `TapScan.BareIsMissed` | strem_agent_server/src/h264_tap.c:352-381 | a packet without start code is a NAL of its type to the recorder and never one to the agent |
| `TapScan.ScannersAgree` | strem_agent_server/src/h264_tap.c:359-381 | on framed payloads nothing is missed: the agent finds a NAL type exactly when the recorder's scanner reports a NAL of it, type 0 included |
| `TapScan.ScannersDiffer` | strem_agent_server/src/h264_tap.c:363-366 | two unframed payloads on which they differ |
| `TapRuns.SubscriberRecovers` | strem_agent_server/src/h264_tap.c:452-540 | for every sequence of publishes and every partial send, block and stall, with `drop_to_idr`: the first block, and any behind a cut one, is an IDR unit behind the cached sets, and `need_idr` is off exactly when the last finished block was delivered whole |
| `TapRuns.RecoveredFrom` | strem_agent_server/src/h264_tap.c:418-450 | before any block that arrived whole lies a recovery block from which every block arrived whole |
| `TapRuns.BlocksFollowPublishes` | strem_agent_server/src/h264_tap.c:452-540 | every block is the packet of one publish, in order and never twice, and a recovery block carries the newest sets published by then |
| `TapRuns.StallBreaksWithoutDrop` | strem_agent_server/src/h264_tap.c:471-483 | a publish keeps all this, for a client that dies in it too, if and only if it does not find a stalled block with `drop_to_idr` off and no recovery going on |
| `TapRuns.GoodThroughoutIff` | strem_agent_server/src/h264_tap.c:452-540 | a run keeps it at every point, for every setting of `drop_to_idr`, if and only if no publish of it finds such a block |
| `TapRuns.BarePacketNeverRecovers` | strem_agent_server/src/h264_tap.c:455-494 | a packet without start code, whatever its type, leaves a recovering subscriber as it was |
| `TapBlocks.OnlySetsAheadIff` | strem_agent_server/src/h264_tap.c:496-527 | only parameter sets lie ahead of the first IDR unit of a recovery block if and only if that holds of the cached SPS packet and, as long as no IDR unit has come, of the PPS packet and the packet itself |
| `TapBlocks.RecoverySetsIff` | strem_agent_server/src/h264_tap.c:383-404 | in every run, on a connection in use or ended, a recovery block splits into the NALs of the newest packets that began with SPS and PPS and then its own, and what is sent ahead is parameter sets only if and only if those packets are |
| `TapBlocks.PictureSentAhead` | strem_agent_server/src/h264_tap.c:383-404 | a packet of SPS and IDR unit is sent ahead of itself: the picture goes out twice |
| `TapSlots.RecoveryEnds` | strem_agent_server/src/h264_tap.c:484-536 | a packet with an IDR unit that the socket takes whole, with what was in the buffer before it, leaves a client of which `TapRuns.SubscriberRecovers` holds, recovering or not, in sync with that packet as its last block, and from some recovery block on every block has arrived whole |
| `TapSlots.EveryPacketGoesOut` | strem_agent_server/src/h264_tap.c:452-540 | from then on, over any run of publishes in which the connection keeps up, every packet is the next block, none skipped and none preceded by sets, and all but perhaps the last have arrived whole |
| `TapSlots.PlacementStartsWellIff` | strem_agent_server/src/h264_tap.c:295-338 | over every history of one slot (placements, publishes, prunes) a new subscriber starts well if and only if the connection before it did not die in the first flush of a publish |
| `TapSlots.PacketLeftBehind` | strem_agent_server/src/h264_tap.c:484-536 | a concrete history after which the next subscriber is sent a plain packet published for the one before |
| `TapRuns.StartsWellIff` | strem_agent_server/src/h264_tap.c:566-588 | a subscriber placed in a slot starts well if and only if the slot's buffer is empty |
| `TapInputs.FlushTakes` | strem_agent_server/src/h264_tap.c:418-450 | for all answers of the socket: the bytes put out are those that takes and interruptions in a row accept, at most all; the client ends if and only if they are too few and the first other answer is a close or a failure, so a socket that would block keeps it |
| `TapInputs.FirstTypeIs` | strem_agent_server/src/h264_tap.c:383-404 | a packet is cached by the type in the header of the NAL behind its first start code, of either length, and not at all if it does not start with one |
| `TapInputs.PublishDoes` | strem_agent_server/src/h264_tap.c:452-540 | for every state, packet and answers: a waiting block goes on from where it stopped, unless it has waited for more than the limit; the packet becomes a block if and only if nothing is left in the buffer and, behind a gap, it holds an IDR unit; how far it gets, and the connection ends if and only if a close or failure meets an unfinished block |
| `TapInputs.PublishKnows` | strem_agent_server/src/h264_tap.c:452-540 | buffer, clock, caches and recovery of the client afterwards, told from the same |
| `TapInputs.EveryPublishDoes` | strem_agent_server/src/h264_tap.c:452-540 | both hold of each publish of every run under a clock that never steps back |
| `TapInputs.PeerStaysConnected` | strem_agent_server/src/h264_tap.c:418-450 | in every run whose answers hold no close and no failure the client is connected at every point, however slowly the socket takes its bytes |
| `TapInputs.WellServedGetsAll` | strem_agent_server/src/h264_tap.c:452-540 | a subscriber whose socket takes each block at once has received, byte for byte, the newest sets and all packets from the first with an IDR unit on |
| `Tap.TapClient.FlushOutBuf` | strem_agent_server/src/h264_tap.c:418-450 | the send loop makes the step of `TapInputs.FlushTakes`: it advances the block by what the socket took, keeps the rest when the socket would block, ends recovery on delivery and closes on failure; bytes on the wire are those of the block |
| `Tap.TapClient.SendLoop` | strem_agent_server/src/h264_tap.c:420-436 | the offset and the wire advance together over any answers of the socket, which `TapInputs.FlushTakes` tells from the answers |
| `Tap.TapClient.Assemble` | strem_agent_server/src/h264_tap.c:500-532 | the copies fill the buffer with exactly sets, start code and packet |
| `Tap.TapClient.MaybeCacheParamSets` | strem_agent_server/src/h264_tap.c:383-404 | a packet whose first NAL is SPS or PPS replaces that set and nothing else |
| `Tap.TapClient.PrepareClient` | strem_agent_server/src/h264_tap.c:467-482 | a block stalled for too long is cut and recovery begins if so configured |
| `Tap.TapClient.Publish` | strem_agent_server/src/h264_tap.c:452-540 | makes the publish step, the closed client's included |
| `Tap.TapClient.Place` | strem_agent_server/src/h264_tap.c:566-588 | placement takes the slot's buffer over as it is and starts everything else anew |
| `Tap.TapClient.Close` | strem_agent_server/src/h264_tap.c:322-338 | closing leaves a free slot with an empty buffer and the wire as it was |
| `Protocol.HeaderRoundTrip` | stream_server/src/protocol.c:18-43 | every header that fits its fields is read back as written |
| `Protocol.HeaderOnto` | stream_server/src/protocol.c:18-43 | writing the fields read from any seven bytes gives those bytes: reading loses nothing |
| `ByteOrder.Be32Ordered` | stream_server/src/protocol.c:92-107 | big endian: for values in range, x < y if and only if the four bytes of x come before those of y, compared from the first byte |
| `ByteOrder.FromBe32Ordered` | stream_server/src/protocol.c:24-27 | any four bytes come before any others if and only if the number read from them is smaller |
| `ByteOrder.Be16Ordered` | stream_server/src/protocol.c:105-106 | the same of the two bytes of the stream id, written |
| `ByteOrder.FromBe16Ordered` | stream_server/src/protocol.c:24-27 | and read |
| `ByteOrder.HeaderPlaces` | stream_server/src/protocol.c:92-107 | the length is the number spelt by bytes 0 to 3 to the base 256, the type is byte 4, the id is spelt by bytes 5 and 6 |
| `ByteOrder.HeaderIsAdmittedIff` | stream_server/src/protocol.c:18-43 | seven bytes are a header if and only if the numbers at these places are within the limits, and it has those values |
| `ByteOrder.HeadersByteByByte` | stream_server/src/protocol.c:92-107 | concrete headers, among them the heartbeat of stream 1 as 0 0 0 7 2 0 1, written and read |
| `ByteOrder.InfoPlaces` | src/tcp_sender.c:399-444 | the ten fields of STREAM_START stand one behind the other, each spelt by its own four bytes |
| `Protocol.DecodeAfter` | stream_server/src/server.c:626-675 | the loop gets every receivable message in front, whatever comes behind |
| `Protocol.DecodeTruncated` | stream_server/src/server.c:626-675 | from a stream cut anywhere come exactly the whole messages in it |
| `Protocol.DecodeCut` | stream_server/src/server.c:84-104 | a message cut short yields nothing |
| `Protocol.DecodeStops` | stream_server/src/server.c:633-637 | a message outside the receiver's limits ends the loop, and all behind it is lost |
| `Protocol.DecodeIsSound` | stream_server/src/server.c:626-675 | on arbitrary bytes every message that comes out stands encoded at the front of the stream, in order, and is within the limits |
| `Protocol.InfoRoundTrip` | stream_server/src/protocol.c:45-90 | the fields of STREAM_START round-trip, and shorter payloads of 16 to 39 bytes give the same fields with the defaults for the rest |
| `Protocol.BuildHeader` | stream_server/src/protocol.c:92-107 | the seven byte assignments write the header, whose bytes `ByteOrder.HeaderPlaces` fixes, and nothing else |
| `Protocol.ReadHeader` | stream_server/src/protocol.c:18-43 | accepts exactly the headers within the limits of length, type and id, which `ByteOrder.HeaderIsAdmittedIff` tells from the bytes |
| `SenderSpec.EveryConnectionIsFramed` | src/tcp_sender.c:144-370 | for every sequence of connect, send_video, heartbeat and disconnect with partial sends: each connection carries one STREAM_START, first, and no other, then whole packets, then at most one cut packet; while connected none is cut; the counters count the whole video packets |
| `SenderSpec.StopIsLast` | src/tcp_sender.c:260-276 | for every such sequence a STREAM_STOP is only ever the last packet of a connection |
| `SenderSpec.DirectStartBreaks` | src/tcp_sender.c:372-461 | a direct stream_start in a connection in use never keeps that |
| `SenderSpec.DirectStopIff` | src/tcp_sender.c:463-490 | a direct stream_stop keeps that if and only if its send completes |
| `SenderSpec.ServerGetsWholePackets` | src/tcp_sender.c:297-320 | end to end: on every connection of every run the server gets exactly the packets sent whole, up to the first that it does not admit |
| `SenderSpec.OwnPacketReceivable` | src/tcp_sender.c:286-293 | the receiver admits a packet of the sender if and only if the id is at most 256 and the payload is seven bytes below the cap |
| `SenderInputs.SendsPatiently` | src/tcp_sender.c:73-104 | for all answers of the socket: a send puts out all that is taken until the socket has blocked a hundred times in a row, closed or failed, and succeeds if and only if that is everything |
| `SenderInputs.CallsAreSent` | src/tcp_sender.c:144-370 | for every sequence of calls whose connects succeed and whose sends get everything out in that way: each connection carries START, every packet and heartbeat asked for while it was in use, and STOP, each whole |
| `SenderInputs.ServerGetsTheCalls` | src/tcp_sender.c:144-370 | end to end: the server then decodes from each connection exactly these messages, in order and unchanged, for ids up to 256 and packets within the receiver's limit |
| `TcpSender.TcpSender.EnsureBufferSize` | src/tcp_sender.c:48-71 | doubling ends with room for the packet |
| `TcpSender.TcpSender.SendAllBytes` | src/tcp_sender.c:73-104 | the loop over partial sends puts exactly the prefix it reports on the wire; it gives up after 100 blocked attempts in a row or an error |
| `TcpSender.TcpSender.SendVideoData` | src/tcp_sender.c:278-334 | makes the video step and succeeds exactly when the packet is counted |
| `TcpSender.TcpSender.SendHeartbeat` | src/tcp_sender.c:336-370 | makes the heartbeat step and succeeds exactly when the connection stays up |
| `TcpSender.TcpSender.SendStreamStart` | src/tcp_sender.c:372-461 | refuses while not connected and changes nothing; else sends the ten fields behind their header, and a failed send ends the connected state |
| `TcpSender.TcpSender.SendStreamStop` | src/tcp_sender.c:463-490 | sends the stop packet; a failure changes no state |
| `TcpSender.TcpSender.ConnectTo` | src/tcp_sender.c:144-258 | makes the connect step; it reports success even when its STREAM_START failed |
| `TcpSender.TcpSender.DisconnectFrom` | src/tcp_sender.c:260-276 | makes the disconnect step: a stop packet, then the socket is closed |
| `TcpSender.WriteStart` | src/tcp_sender.c:381-444 | the buffer holds the encoding of STREAM_START with the stream's information, at the places of `ByteOrder.InfoPlaces` |
| `ReceiveLoop.Connection.RecvExact` | stream_server/src/server.c:84-104 | succeeds exactly when the bytes still arrive, and takes exactly those, under any segmentation |
| `ReceiveLoop.Connection.ReceiveMessage` | stream_server/src/server.c:626-675 | one turn gets the next message or ends the loop, as the decoder of the whole stream does |
| `ReceiveLoop.Connection.HandleClient` | stream_server/src/server.c:626-675 | the loop gets exactly the messages decoded from the whole stream, however it is cut up |
| `BgrFrames.FramesAreOwned` | stream_server/src/zmq_bridge.c:380-392 | in every interleaving with asynchronous releases: a frame's count is its cache slot (0 or 1) plus the other holders; every frame is live or was freed exactly once; whatever any possible step uses is live |
| `BgrFrames.HolderKeepsFrame` | stream_server/src/zmq_bridge.c:380-392 | a frame is live if and only if somebody still holds it |
| `BgrFrames.NothingUsedAfterFree` | stream_server/src/zmq_bridge.c:457-521 | every step that can be taken touches live frames only: hit, replacement, crop, send failure and release included |
| `BgrFrames.NothingLeaks` | stream_server/src/zmq_bridge.c:411-426 | with the cache cleared, the thread idle and every message sent, every frame made has been freed |
| `BgrBridge.ZmqBridge.FreeBgrFrame` | stream_server/src/zmq_bridge.c:380-387 | the release that finds a count of one frees the frame, any other only lowers the count |
| `BgrPictures.ReplyIsLastIff` | stream_server/src/zmq_bridge.c:394-521 | in every run of stream starts, stops, decoded pictures and requests, on all streams: an answered request is shown the picture decoded last if and only if it does not meet a cached frame of an earlier decoder with the same key; if it does, it is shown an older picture |
| `BgrPictures.AllRepliesLastIff` | stream_server/src/zmq_bridge.c:394-521 | over a whole run all answers are the last picture if and only if no request meets such a frame |
| `BgrPictures.OneDecoderShowsLast` | stream_server/src/stream.c:364-520 | while a stream is not stopped no request meets one: within a decoder counters never repeat |
| `BgrPictures.OldPictureShown` | stream_server/src/stream.c:449-466 | a concrete run: start, picture, request, stop, start, picture; the next request is shown the first picture, whether or not a conversion would succeed |
| `PictureInputs.LastIsNewest` | stream_server/src/decoder.c:940-1072 | in every run, told from the events: the frame a request finds is the one the stream's decoder handed out last, under the colours of the last START, and there is one if and only if a decoder was made since the last STOP and has handed out a picture |
| `PictureInputs.NumbersIncrease` | stream_server/src/decoder.c:940-1072 | the number that makes a picture older or newer is the order in which they came out |
| `PictureInputs.AnsweredIff` | stream_server/src/zmq_bridge.c:428-473 | a request is answered if and only if it finds a frame with a size that the cache has or that converts; without a match the answer is the frame itself |
| `PictureInputs.ShownAgain` | stream_server/src/zmq_bridge.c:452-512 | what a request was shown, the next one is shown again without a conversion, and no other stream's slot changes |
| `BgrBridge.ZmqBridge.ConvertLastFrame` | stream_server/src/zmq_bridge.c:394-521 | with messages released in between: the frame returned is live and held, it shows the whole of the picture that `BgrPictures.Shown` gives for the cache and the last picture, and the pictures in the cache become those of `BgrPictures.Recached`; a match makes nothing new |
| `BgrBridge.ZmqBridge.SendBgrFrameOwned` | stream_server/src/zmq_bridge.c:169-184 | afterwards the thread holds nothing, and on success the message keeps the frame live |
| `BgrBridge.ZmqBridge.Request` | stream_server/src/zmq_bridge.c:762-827 | a whole request touches live frames only and holds nothing at its end; it succeeds if and only if a picture is shown, the region resolves, a crop that is needed succeeds and the message goes out; the frame in flight is then exactly the resolved region, place and size, of the picture that `BgrPictures.Shown` gives, which is the last one under the condition of `BgrPictures.ReplyIsLastIff` |
| `BgrBridge.ZmqBridge.ClearCachedBgrFrames` | stream_server/src/zmq_bridge.c:411-426 | every slot is emptied, and with nothing in flight no frame is left |
| `CropRegion.RegionIsIntersection` | stream_server/src/zmq_bridge.c:524-576 | the resolved region is exactly the wanted pixels that the frame has; it is refused if and only if there are none, and a crop is made if and only if some pixel is left out |
| `CropRegion.PixelOfRows` | stream_server/src/zmq_bridge.c:586-599 | each channel of each pixel of the crop is that of the pixel at the same place of the region |
| `CropRegion.CropBgrFrame` | stream_server/src/zmq_bridge.c:578-599 | the row-copy loop fills a fresh buffer with exactly the rows of the region and reads inside the frame only |
| `VuyxConvert.BlockIsScalar` | stream_server/src/decoder.c:1372-1458 | shuffle, interleave, wrapping multiply, shift and saturating packs give the bytes of the scalar formula at each of the eight pixels |
| `VuyxConvert.ComponentAt` | stream_server/src/decoder.c:1384-1414 | the byte shuffle within halves and the interleave bring the component of pixel i to lane i |
| `VuyxConvert.NarrowAt` | stream_server/src/decoder.c:1285-1293 | max, min and the two saturating packs clamp to a byte as the scalar code does |
| `VuyxConvert.NoOverflow` | stream_server/src/decoder.c:1310-1362 | with any coefficients in use no term leaves the 32-bit range |
| `VuyxColours.RowsAreRounded` | stream_server/src/decoder.c:1310-1362 | every coefficient of the four rows is the integer nearest to 256 times the factor of BT.601 or BT.709 in its range, chosen by the stream's information |
| `VuyxColours.PixelShows` | stream_server/src/decoder.c:1500-1524 | for every V, U and Y each channel differs by less than one from the real-valued matrix of the chosen standard, cut to a byte; luma below black counts as black, as in the code |
| `VuyxColours.PixelIsGrey` | stream_server/src/decoder.c:1500-1524 | without colour the channels are equal, 0 exactly up to black and 255 exactly from white on |
| `VuyxConvert.PixelsOrdered` | stream_server/src/decoder.c:1492-1527 | of any two converted pixels: more light makes no channel darker; more U makes blue no darker, more V red no darker, and either green no brighter |
| `VuyxConvert.ConvertBlocks` | stream_server/src/decoder.c:1372-1458 | the block loop does all but at most seven pixels of the row, each by the scalar formula, and writes nothing else |
| `VuyxConvert.ConvertRow` | stream_server/src/decoder.c:1492-1527 | blocks and tail together do every pixel of the row |
| `VuyxConvert.Convert` | stream_server/src/decoder.c:1465-1527 | for every width, height and stride, with or without the vector instructions, each channel of each pixel is within one of what BT.601 or BT.709 gives to its bytes V, U and Y over the reals, greys are exact, and the picture is the scalar formula; bad dimensions are rejected |
| `PngExtractor.ExtractTwice` | strem_agent_client/strem_agent_client.py:394-421 | extracting after each of two reads gives the files and the rest of one extraction |
| `PngExtractor.CuttingDoesNotMatter` | strem_agent_client/strem_agent_client.py:460-464 | for every chunking of a stream the files found are those of one look at the whole |
| `PngExtractor.FilesComeBack` | strem_agent_client/strem_agent_client.py:394-421 | concatenated PNG files of any chunks, their lengths in the byte order of `ByteOrder.Be32Ordered`, come out exactly as written, and nothing stays behind |
| `PngExtractor.NoiseInFront` | strem_agent_client/strem_agent_client.py:398-405 | bytes in front of a file in which no signature begins are skipped and the file comes out |
| `PngExtractor.FileByteByByte` | strem_agent_client/strem_agent_client.py:407-420 | a file written out byte by byte, with the length of its header chunk as 0 0 0 13, comes out as it stands |
| `PngExtractor.PngReader.ExtractPngs` | strem_agent_client/strem_agent_client.py:394-421 | the nested loops that delete from the buffer in place compute that extraction, and end |
| `PngExtractor.PngReader.NextFile` | strem_agent_client/strem_agent_client.py:407-420 | the chunk walk finds the end behind IEND, chunk by chunk as `PngExtractor.FilesComeBack` writes them, or reports that the file is incomplete |
| `PngExtractor.PngReader.ReadAll` | strem_agent_client/strem_agent_client.py:456-464 | reading piece by piece gives the files of the whole stream |

## Left out

- Recorder dispatch: one recorder serves many streams; each is modelled on its own, and events reach it by their id. The callback is fixed for a run, and the IDs and the configuration are those start-up checks let through.
- Storage: where a mount is required, its probing, the check intervals and the re-check after an error are one input, "mounted". A file left open by a failed check may still flush buffered bytes later; the model stops following it.
- `fclose`: assumed to succeed, because `close_segment` renames whatever it answers. A write that reports success has its bytes in the file. Paths are never too long, and `malloc` and `realloc` succeed.
- File names: the second of the segment's start and the codec stand for the name made with `localtime`, so an hour that the local clock repeats is not modelled. Only files of this stream and this run are in the directory.
- Counters: the 32-bit wrap of the IDR request count and of `size_t` byte sums is not modelled, since memory bounds the sums and the backoff stops changing after three requests. The monotonic clock is below 2^63 ns.
- PacingRuns.FileNamesIncrease: assumes a wall clock that never steps back, since names follow the wall clock; without it the condition is that of `Directory.OnDiskIff`.
- TapScan.ContainsIff: for NAL types other than 0, which no caller asks for.
- TapRuns.SubscriberRecovers: for a subscriber placed in an empty slot; when a used slot is one is `TapSlots.PlacementStartsWellIff`.
- Tap: the handshake, the accept socket, the table of sixteen slots (each client is on its own) and the parameter sets kept per stream for new clients, which are parameters of placement.
- TLV connection: address lookup, non-blocking connect and its timeouts are the outcome of connect; sleeping between attempts and the heartbeat interval are left out, and running out of listed answers counts as giving up.
- Server: what is done with a received message (decoder, statistics, watchdog, client list), and leaving the loop because the server shuts down, are not part of the model.
- Bridge: parsing of requests, waiting for a first frame and the texts of replies are left out. Conversion keeps size, counter and key flag, and the cache is cleared only when the bridge ends; pixels appear only in `CropRegion` and `VuyxConvert`. The atomic count and the free that follows it are one step.
- CropRegion: widths and coordinates are unbounded integers; the C code computes the sums in 64 bits, where 32-bit coordinates cannot overflow.
- PngExtractor.PngReader.ReadAll: leaves out the guard that cuts a buffer of more than 50 MiB, which can only act on a stream without a complete file for that long.
- VuyxConvert.Convert: the null test of the data pointer and the failed allocation are left out; the source buffer is as large as its last row needs.
- PictureInputs.LastIsNewest: for decoders that hand out one picture for each packet at most, which is taken from FFmpeg.
- SenderInputs.ServerGetsTheCalls: for calls that are served; what is sent otherwise is `SenderInputs.SendsPatiently` and `SenderSpec.EveryConnectionIsFramed`.
- BgrPictures.OneDecoderShowsLast: takes it from FFmpeg that a decoder hands out at most one picture for each packet it has counted, with that packet's counter. Virtual streams of the stress test are ordinary streams here.
- Decoder formats other than VUYX, FFmpeg, VA-API, CUDA, libyuv and swscale: foreign code or plain calls of it.
- Option and JSON parsing, statistics, logging, deployment scripts, user interfaces, key mapping and the Python gateway: easy or textual members that say little.
