# Model of the media path of mc-player

This project models the receiving side of the player's H.264/H.265 video path and proves what it keeps:

- `Jitter*.dfy`, `JitterBuffer.dfy`: the video jitter buffer: sequence number extension, the ring of 256
  slots, in-order drain, give-up after a dwell, NACK grouping. `Jitter.dfy` gives each operation as a
  function on an immutable state; the class in `JitterBuffer.dfy` updates its ring and counters in place
  like the source and is proved equal to those functions; the other files prove what whole runs keep.
- `Reorder*.dfy`, `Dpb*.dfy`: H.264 picture management of the DXVA codec: texture slot allocation,
  reference list, output reordering, recently emitted slots and the reserved IDR slot. Again a functional
  form, a class (`DpbManager.dfy`) proved equal to it, and theorems over runs.
- `Bits.dfy`, `BitReader.dfy`, `Pps.dfy`, `PicParams.dfy`, `Poc.dfy`, `Emulation.dfy`, `AnnexB.dfy`,
  `DriverBuffer.dfy`: the bitstream layer, as round trips against the H.264 syntax.
- `DepackH264.dfy`, `DepackH265.dfy`, `AccessUnits.dfy`, `H264Packets.dfy`, `H265Packets.dfy`: the RTP
  depacketizers.
- `Pipeline.dfy`: depacketizer, splitter and driver buffer together.
- `Clock.dfy`: the conversion between counter ticks and nanoseconds.

`Common.dfy` and `Arithmetic.dfy` hold shared types and number facts. To check the project, use
`dafny verify dfyconfig.toml`.

Bytes are integers from 0 to 255 and bit fields are written with `/` and `%`. Integers are unbounded;
16-bit and 32-bit wrap-around, the casts to bytes, and truncated division are written out where the source
relies on them. Callbacks (emit, loss, NACK, access unit) are sequences that record the calls made. Fields
marked as kept for properties only (the extended number in a ring slot and a NACK record, the frames
decoded and the reference history of the picture management) have no counterpart in the source and no
influence on any other field. The runs of the jitter buffer count in unbounded numbers. They are the runs of
the source while extended numbers stay at most 2^32-258 (`JitterRuns.StepBelow`, and the contract of
`JitterBuffer.JitterBufferVideo.OnRtp`); what the NACK scan does beyond is the subject of `JitterWrap.dfy`.
The clock, the time of a call and the driver's answer are parameters.

Where the code does not do what its comments, its headers or its callers expect, the model follows the code,
and theorems say exactly when it does:

- Force-skip does not clear the ring slots it passes (comment at lines 158-159 of
  jitter_buffer_video.cpp): `JitterOrder.TruthfulIffClean` says when a number is reported lost although it
  was received, `JitterOrder.MisplacedIffReached` when a datagram is handed over at a wrong position, and
  `JitterOrder.NewRefusedIff` when a new datagram is refused as a duplicate.
- The 32-bit loop variable of the NACK scan can wrap: `JitterWrap.ScanIsGroupsIff` says when the scan makes
  the requests it should, and `JitterWrap.ScanEndsIff` after which two datagrams it never ends.
- 16 texture slots do not suffice for eight references and four reordered frames (comment at line 1183 of
  codec_dxva_video.cpp): `DpbTight.IntactIffRoomy` says which decoders have enough.
- An access unit that ends the lost-reference state need not carry an IDR unit (depack_h264.h, lines 13-18):
  `H264Packets.AnchorHonestIff` says when the mark is honest.
- The arrival stamp of an access unit need not be that of its first packet:
  `H264Packets.ArrivalIsFirstIff` says when it is.
- The H.265 side never looks for recovery points (`H265Packets.RecoveryNeverReported`).

## Model

| member | source | states |
|---|---|---|
| JitterBuffer.JitterBufferVideo.constructor | mc-player/src/media/jitter_buffer_video.cpp:26-69 | a new buffer is the empty state with a dwell of 30 ms and a NACK interval of 50 ms |
| JitterBuffer.JitterBufferVideo.Configure | mc-player/src/media/jitter_buffer_video.cpp:300-302 | only positive values replace the dwell and the NACK interval; nothing else changes |
| JitterBuffer.JitterBufferVideo.Drain | mc-player/src/media/jitter_buffer_video.cpp:191-214 | the loop ends, and its result is the state function on which all run theorems rest: every consecutive filled slot is emitted and released |
| JitterBuffer.JitterBufferVideo.EarliestPending | mc-player/src/media/jitter_buffer_video.cpp:225-233 | the least arrival time among the filled slots behind the gap, 0 when there is none |
| JitterBuffer.JitterBufferVideo.SweepExpired | mc-player/src/media/jitter_buffer_video.cpp:217-249 | the nested loops end; one number after the other is given up while the oldest waiting datagram is a dwell old |
| JitterBuffer.JitterBufferVideo.CollectBlp | mc-player/src/media/jitter_buffer_video.cpp:264-271 | the 16-bit mask of the missing numbers behind a pid, accumulated bit by bit |
| JitterBuffer.JitterBufferVideo.SkipFilled | mc-player/src/media/jitter_buffer_video.cpp:260-261 | the first missing number from a given one on |
| JitterBuffer.JitterBufferVideo.RequestGroup | mc-player/src/media/jitter_buffer_video.cpp:273-283 | a due group is requested and its time remembered in the slot of its pid; one requested too recently is not |
| JitterBuffer.JitterBufferVideo.DetectGapsAndNack | mc-player/src/media/jitter_buffer_video.cpp:253-288 | with its 32-bit loop variable, the scan sends and remembers exactly the requests of the group list that ScanExact and ScanSends are about, whenever that list fits the 32-bit range |
| JitterBuffer.JitterBufferVideo.ForceSkipAhead | mc-player/src/media/jitter_buffer_video.cpp:139-152 | one loss report per number stepped over; the ring is left alone |
| JitterBuffer.JitterBufferVideo.AcceptDatagram | mc-player/src/media/jitter_buffer_video.cpp:137-187 | a datagram that is not too old: make room, refuse a taken slot, file, drain, request, give up |
| JitterBuffer.JitterBufferVideo.OnRtp | mc-player/src/media/jitter_buffer_video.cpp:95-188 | the whole entry point equals one step of the runs below, wrapped numbers included, and keeps the 32-bit headroom |
| JitterBuffer.JitterBufferVideo.Tick | mc-player/src/media/jitter_buffer_video.cpp:314-318 | the periodic call equals one step of the runs below |
| JitterBuffer.JitterBufferVideo.Reset | mc-player/src/media/jitter_buffer_video.cpp:320-334 | the ring is empty and the numbers restart; the counters survive |
| JitterTrace.TraceRefinement | mc-player/src/media/jitter_buffer_video.cpp:95-249 | main result: in every interleaving of arrivals and ticks that steps over no waiting number, the callbacks are one event per consecutive number from the first on, each emit with the first datagram received for it; each call reports a number lost if and only if it had not been received by then; and nothing received for a later number is missing from the ring |
| JitterOrder.TruthfulIffClean | mc-player/src/media/jitter_buffer_video.cpp:137-163 | every call reports lost exactly what had not been received, if and only if no force-skip of the run stepped over a waiting number |
| JitterOrder.NewRefusedIff | mc-player/src/media/jitter_buffer_video.cpp:155-163 | in every genuine run, clean or not: a datagram never received before and not too old is counted as a duplicate and lost if and only if a number received earlier, whole ring cycles older, is still in the slot they share; the comment at lines 158-159 takes every filled slot for a retransmission |
| JitterOrder.OlderWaits | mc-player/src/media/jitter_buffer_video.cpp:155-163 | as long as no waiting number was stepped over, the number in the way is one received and not yet handed over |
| JitterOrder.AliasedDatagramLost | mc-player/src/media/jitter_buffer_video.cpp:140-163 | the corollary for the nearest case: a datagram 256 ahead of a waiting one, never received before, is dropped as a duplicate |
| JitterOrder.UncleanRunExists | mc-player/src/media/jitter_buffer_video.cpp:139-152 | after numbers 0, 2 and 258, number 2 has been reported lost although it is waiting in the ring |
| JitterOrder.MisplacedIffReached | mc-player/src/media/jitter_buffer_video.cpp:139-214 | for every run, whatever its inputs, while extended numbers stay in range: some datagram is handed over at a position other than that of its number, if and only if a drain comes around to a slot that was stepped over while it was filled; it then comes a whole number of ring cycles too late |
| JitterOrder.MisplacedRunExists | mc-player/src/media/jitter_buffer_video.cpp:139-214 | numbers 0, 2, 258, 3, 4, ..., 257 in turn hand over datagram 2 as number 258 |
| JitterOrder.CleanIsInPlace | mc-player/src/media/jitter_buffer_video.cpp:95-249 | a run in which force-skip steps over no waiting number hands over every datagram at its own position |
| JitterOrder.OldAfterFirstFloods | mc-player/src/media/jitter_buffer_video.cpp:78-151 | a datagram older than number 0, right after the first one, wraps to a number near 2^32 and costs about 2^32 loss reports |
| JitterDwell.BoundedWait | mc-player/src/media/jitter_buffer_video.cpp:217-249 | after every call that reaches the sweep, each datagram still held arrived less than a dwell before |
| JitterDwell.NoLossIff | mc-player/src/media/jitter_buffer_video.cpp:95-249 | main result, on the inputs alone and for runs of any length with ticks: nothing is reported lost if and only if every arrival comes before the ring would have to step over something missing, and at every check nothing behind a missing number has waited a dwell |
| JitterDwell.StreamComesOutSorted | mc-player/src/media/jitter_buffer_video.cpp:95-249 | such a run is one emit per number in order, each with the first datagram received, up to the first number missing |
| JitterDwell.BlockComesOutSorted | mc-player/src/media/jitter_buffer_video.cpp:95-249 | a corollary: any permutation, with repetitions, of a block inside the ring and one dwell comes out complete and sorted |
| JitterNack.ScanExact | mc-player/src/media/jitter_buffer_video.cpp:257-287 | a number of the scanned range is missing if and only if exactly one group names it, as pid or as BLP bit (section 6.2.1 of RFC 4585) |
| JitterNack.BlpIs16Bits | mc-player/src/media/jitter_buffer_video.cpp:264-271 | the mask fits its 16-bit field |
| JitterNack.ScanSends | mc-player/src/media/jitter_buffer_video.cpp:273-283 | one scan sends exactly the requests of the groups that were due when it began, lowest first; RequestSays and CallAsks say what is in them |
| JitterNack.RunPaced | mc-player/src/media/jitter_buffer_video.cpp:273-283 | over every run, force-skips over waiting numbers included, two requests with the same extended pid are at least the configured interval apart |
| JitterNack.CallAsks | mc-player/src/media/jitter_buffer_video.cpp:173-187 | main result: every call of every run asks for what is missing: after a call that files a datagram, every number missing between the next and the highest one that the drain leaves is named by a request added in that call, unless the slot of its group was used for a request (for that pid, or one whole ring cycles older) less than an interval before; a tick does the same for what its sweep leaves; other calls ask for nothing |
| JitterNack.RequestSays | mc-player/src/media/jitter_buffer_video.cpp:262-283 | the request sent for a group carries the low 16 bits of its pid, and pid and mask name exactly the missing numbers among the 17 (section 6.2.1 of RFC 4585) |
| JitterNack.AllDueExact | mc-player/src/media/jitter_buffer_video.cpp:257-287 | when nothing was asked for recently, a number of the range is missing if and only if exactly one request sent names it |
| JitterWrap.ScanIsGroupsIff | mc-player/src/media/jitter_buffer_video.cpp:257-287 | in 32-bit arithmetic the scan makes the requests of the group list and is then left, if and only if no group ends beyond the 32-bit range and the highest number is not 2^32-1; otherwise it starts over below 17 |
| JitterWrap.FitsBelow | mc-player/src/media/jitter_buffer_video.cpp:257-287 | that condition holds for every ring while the highest number is at most 2^32-18 |
| JitterWrap.LastNumberNeverEnds | mc-player/src/media/jitter_buffer_video.cpp:257-287 | with 2^32-1 as the highest number the scan is never left, whatever is in the ring |
| JitterWrap.BlpFits | mc-player/src/media/jitter_buffer_video.cpp:264-271 | for a group inside the range the mask in 32-bit arithmetic is the one ScanExact is about |
| JitterWrap.ScanEndsIff | mc-player/src/media/jitter_buffer_video.cpp:78-288 | if the second datagram is older than extended number 0, the scan that follows ends if and only if it is not exactly the predecessor of 0 |
| JitterWrap.ZeroThenLast | mc-player/src/media/jitter_buffer_video.cpp:78-288 | the input: after numbers 0 and 65535 the scan is entered and never left |
| JitterRuns.RunLedger | mc-player/src/media/jitter_buffer_video.cpp:106-187 | conservation in every run, force-skips included, while extended numbers stay in range: received = emitted + late + duplicate + pending, numbers passed = emitted + given up, and the pending count is the number of filled slots |
| JitterRuns.ToExtSeqRecovers | mc-player/src/media/jitter_buffer_video.cpp:78-82 | a true number within half a 16-bit cycle of the highest one is recovered exactly |
| JitterRuns.ToExtSeqWraps | mc-player/src/media/jitter_buffer_video.cpp:78-82 | the cast to 32 bits is harmless if and only if the signed sum stays in range; below zero it lands near 2^32 |
| JitterRuns.StepBelow | mc-player/src/media/jitter_buffer_video.cpp:119-152 | extended numbers within a limit keep all counters within that limit plus the ring |
| JitterRuns.SeqOfHeader | mc-player/src/media/jitter_buffer_video.cpp:95-100 | the number is the 16-bit, big-endian one of the fixed RTP header (section 5.1 of RFC 3550); what is shorter than the header is ignored |
| JitterCounts.CountersExact | mc-player/src/media/jitter_buffer_video.cpp:119-187 | in every run emitted, given-up and requested numbers are counted once per callback; a datagram behind the next number counts as a duplicate up to 32 behind and as late beyond, and changes nothing else; one filed below the highest counts as reordered; the maximum follows the pending count |
| JitterCounts.NothingGivenUpEarly | mc-player/src/media/jitter_buffer_video.cpp:137-249 | in every run each loss reported is that of a number a whole ring behind the one that arrives, or of one with a datagram behind it that has waited a dwell |
| JitterCounts.ResetStartsOver | mc-player/src/media/jitter_buffer_video.cpp:320-334 | after a reset in any state every run is that of a new buffer, but for the counts and callbacks made before |
| Reorder.OutIndexIsLeast | mc-player/src/media/codec_dxva_video.cpp:1213-1221 | the scan finds the least POC of the queue up to the next IDR frame, the first of several |
| ReorderOrder.QueueSafety | mc-player/src/media/codec_dxva_video.cpp:1210-1245 | with arbitrary POCs, after every stream: emitted and queued frames are a permutation of the decoded ones, at most the reorder size wait, and no frame was emitted across an IDR frame |
| ReorderOrder.DrainSafety | mc-player/src/media/codec_dxva_video.cpp:1210-1245 | draining empties the queue and keeps the same |
| ReorderOrder.ReorderCorrect | mc-player/src/media/codec_dxva_video.cpp:1210-1245 | main result: a stream in which POCs differ within a group, an IDR frame has the least, and no frame overtakes more than the reorder size others comes out complete, group by group, each sorted by POC |
| ReorderOrder.DisplayOrderIff | mc-player/src/media/codec_dxva_video.cpp:1210-1245 | main result, both ways: for POCs as the standard asks (distinct within a group, least at its IDR frame), the drained output is in display order if and only if no frame overtakes more others than the reorder size |
| ReorderOrder.DisplayOrderIsUnique | mc-player/src/media/codec_dxva_video.cpp:1210-1245 | there is only one such output |
| ReorderTiming.HandedOverInTime | mc-player/src/media/codec_dxva_video.cpp:1210-1245 | main result: for every stream the queue hands frames over exactly as long as more than the reorder size wait, or one that waits before the next IDR frame has a POC below one handed over since the last IDR frame; so between calls none is overdue, and none goes early |
| ReorderTiming.DrainedFlow | mc-player/src/media/codec_dxva_video.cpp:1210-1245 | a drain hands over everything in that order |
| DpbIntegrity.SlotIntegrity | mc-player/src/media/codec_dxva_video.cpp:1156-1201 | main result: with more slots than pictures to protect, in every run of pictures, refusals by the driver and flushes, every reference, every queued frame, the last four emitted and the reserved IDR frame keep their slots, and the picture being decoded has a slot of its own |
| DpbIntegrity.AllocSafeIff | mc-player/src/media/codec_dxva_video.cpp:1156-1201 | the slot allocated is unprotected if and only if some slot is: only the fallback overwrites, and only when nothing else is left |
| DpbIntegrity.AllocIs | mc-player/src/media/codec_dxva_video.cpp:1156-1201 | the whole allocation, pass by pass: the first free slot, left as it is; else the unprotected slot with the least POC, the first of several, cleared; else the oldest reference neither reserved nor waiting, else slot 1, or 2 if 1 is reserved, cleared |
| DpbState.RunTells | mc-player/src/media/codec_dxva_video.cpp:2281-2284 | in every run the entry of a slot in use has the POC of the picture in it |
| DpbState.VictimIsEarliest | mc-player/src/media/codec_dxva_video.cpp:1165-1181 | so a victim is a picture in use, and no unprotected picture in use has a lower POC |
| DpbState.NotesFollow | mc-player/src/media/codec_dxva_video.cpp:1310-1325 | in every run the ring holds the slots of the last four frames handed over, and the slot of the last IDR frame handed over is reserved until the next IDR picture starts |
| DpbState.IdrReleases | mc-player/src/media/codec_dxva_video.cpp:2611-2616 | when an IDR picture starts, in every run, no slot is in use, nothing is a reference, no slot is reserved |
| DpbState.FlushStartsOver | mc-player/src/media/codec_dxva_video.cpp:2755-2766 | after any run a flush leaves the decoder as new, but for what the texture still shows |
| DpbIntegrity.UnprotectedSlotExists | mc-player/src/media/codec_dxva_video.cpp:1156-1201 | by counting, more slots than pictures to protect leave one unprotected |
| DpbTight.IntactIffRoomy | mc-player/src/media/codec_dxva_video.cpp:1156-1201 | main result: for every decoder, all runs keep everybody's picture if and only if there are more slots than pictures to protect (references + reorder size + 4 recent + the reserved one) |
| DpbTight.StreamBreaks | mc-player/src/media/codec_dxva_video.cpp:1156-1201 | one stream breaks every smaller decoder: an IDR picture, the references, then pictures that are none, in ascending POC |
| DpbRuns.SlidingWindow | mc-player/src/media/codec_dxva_video.cpp:2449-2461 | in every run the frames decoded and the references are those the inputs ask for, each with its own POC, frame number and slot, and the reference list is the newest reference pictures since the last IDR picture, newest first, each of which has cut it to its own max(num_ref_frames, 1) (section 8.2.5.3 of H.264) |
| DpbRuns.RoomIsLeast | mc-player/src/media/codec_dxva_video.cpp:2458-2460 | how many those are: as many as every reference picture since the IDR picture allows, given how many came after it |
| DpbRuns.SteadyWindow | mc-player/src/media/codec_dxva_video.cpp:2449-2461 | if num_ref_frames did not change since the IDR picture, they are the newest max(num_ref_frames, 1) |
| DpbRuns.QueueFollowsDecoding | mc-player/src/media/codec_dxva_video.cpp:2463-2473 | in every run the output queue is that of the stream of decoded frames, so the reorder theorems apply to it |
| DpbRuns.FlushHandsOverAll | mc-player/src/media/codec_dxva_video.cpp:2755-2766 | after any run, flush() has handed over everything decoded since the last reset, never across an IDR frame, and for POCs as the standard asks in display order if and only if the stream needs no more reordering than the queue has room for |
| DpbTight.DefaultSizeIff | mc-player/src/media/codec_dxva_video.cpp:1874-1939 | a decoder made without reorder information or a wish of the driver keeps everybody's picture in every run if and only if the stream has at most five reference frames |
| DpbTight.ReferenceOverwritten | mc-player/src/media/codec_dxva_video.cpp:1182-1198 | in a decoder that is too small the driver writes into slot 2 while the reference list still gives slot 2 as picture 1, unless that picture still waits for output |
| DpbTight.NoReorderSizeIff | mc-player/src/media/codec_dxva_video.cpp:1874-1939 | for a stream that declares no reordering, if and only if it has at most nine |
| DpbTight.EightAndFour | mc-player/src/media/codec_dxva_video.cpp:1182-1184 | eight references and four reordered frames need 19 slots, not the 16 of the comment |
| DpbManager.PictureManager.constructor | mc-player/src/media/codec_dxva_video.cpp:726-773 | a new manager is the empty state |
| DpbManager.PictureManager.IsInDelayed | mc-player/src/media/codec_dxva_video.cpp:1149-1154 | whether a queued frame has the slot |
| DpbManager.PictureManager.IsRecentlyEmitted | mc-player/src/media/codec_dxva_video.cpp:753-758 | whether the slot is in the ring of recent ones |
| DpbManager.PictureManager.FindFreeSlot | mc-player/src/media/codec_dxva_video.cpp:1160-1164 | first pass: the first unused slot nobody looks at |
| DpbManager.PictureManager.FindVictim | mc-player/src/media/codec_dxva_video.cpp:1165-1181 | second pass: the unprotected slot with the least POC |
| DpbManager.PictureManager.OverwriteReference | mc-player/src/media/codec_dxva_video.cpp:1185-1198 | last resort: the oldest reference neither reserved nor queued, else slot 1 or 2 |
| DpbManager.PictureManager.AllocSlot | mc-player/src/media/codec_dxva_video.cpp:1156-1201 | the slot and the entries are those AllocSafeIff is about |
| DpbManager.PictureManager.ChooseFrame | mc-player/src/media/codec_dxva_video.cpp:1213-1221 | the position OutIndexIsLeast is about |
| DpbManager.PictureManager.EmitFrame | mc-player/src/media/codec_dxva_video.cpp:1233-1325 | the chosen frame leaves the queue, its slot is noted, and an IDR frame reserves its slot |
| DpbManager.PictureManager.SelectAndEmit | mc-player/src/media/codec_dxva_video.cpp:1210-1327 | the loop ends and equals the selection the reorder theorems are about |
| DpbManager.PictureManager.PushReference | mc-player/src/media/codec_dxva_video.cpp:2458-2460 | the new reference heads the list, which is cut to its capacity |
| DpbManager.PictureManager.DecodeIntoSlot | mc-player/src/media/codec_dxva_video.cpp:2281-2471 | the slot is given to the picture, the picture becomes a reference if it is one and joins the queue |
| DpbManager.PictureManager.FlushPendingPic | mc-player/src/media/codec_dxva_video.cpp:1957-2479 | equals one step of the runs; a frame refused by the driver leaves everything else alone |
| DpbManager.PictureManager.ReleaseAll | mc-player/src/media/codec_dxva_video.cpp:2611-2616 | an IDR picture releases every slot, every reference and the reserved slot |
| DpbManager.PictureManager.StartNewPicture | mc-player/src/media/codec_dxva_video.cpp:2597-2622 | equals one step of the runs |
| DpbManager.PictureManager.ResetOutput | mc-player/src/media/codec_dxva_video.cpp:1727-1742 | the queue, the ring of recent slots and the reserved slot are as new |
| DpbManager.PictureManager.ResetDpb | mc-player/src/media/codec_dxva_video.cpp:1721-1752 | everything but the texture is as new |
| DpbManager.PictureManager.Flush | mc-player/src/media/codec_dxva_video.cpp:2755-2766 | finish, drain, reset: what has been handed over is exactly what FlushHandsOverAll is about |
| BitReader.BitReader.ReadBits | mc-player/src/media/dxva_h264.cpp:15-25 | a read of n bits gives the number they write, in 32-bit arithmetic; zero bits or too many give 0 and set the error flag accordingly |
| BitReader.BitReader.ReadUe | mc-player/src/media/dxva_h264.cpp:29-38 | equals the reader that ReadUeInverts is about |
| BitReader.BitReader.ReadSe | mc-player/src/media/dxva_h264.cpp:40-44 | equals the reader that ReadSeInverts is about |
| BitReader.BitReader.MoreRbspData | mc-player/src/media/dxva_h264.cpp:57-76 | the byte-wise search from the end decides whether a one still comes after the next bit |
| Bits.ReadBitsInverts | mc-player/src/media/dxva_h264.cpp:15-25 | reading returns the number written, for 1 to 32 bits |
| Bits.ReadUeInverts | mc-player/src/media/dxva_h264.cpp:29-38 | read_ue inverts the code of section 9.1 of H.264 for every code number up to 2^32-2, whatever follows |
| Bits.ReadSeInverts | mc-player/src/media/dxva_h264.cpp:40-44 | read_se inverts the signed codes (section 9.1.1) |
| Bits.TooManyZeros | mc-player/src/media/dxva_h264.cpp:29-38 | 32 zeros are an error, whatever follows |
| Bits.UeCut | mc-player/src/media/dxva_h264.cpp:29-38 | a code cut short leaves nothing to read or reports an error; a whole one is read |
| Bits.MoreDataExact | mc-player/src/media/dxva_h264.cpp:51-76 | more_rbsp_data is true if and only if payload bits remain before the stop bit, whatever the alignment |
| Bits.UnpackPacked | mc-player/src/media/dxva_h264.cpp:13-25 | the bits of packed bytes are the bits packed |
| Pps.ParsePps | mc-player/src/media/dxva_h264.cpp:243-293 | the parser on bytes equals the parser on bits |
| Pps.ParseInvertsBytes | mc-player/src/media/dxva_h264.cpp:243-293 | main result: every picture parameter set of the supported subset (section 7.3.2.2), written with or without its optional tail and padded to bytes, parses back to itself |
| Pps.ParseInverts | mc-player/src/media/dxva_h264.cpp:278-288 | the same on bits, with any number of zeros behind the stop bit |
| Pps.OtherSpsRefused | mc-player/src/media/dxva_h264.cpp:245-247 | a set that names another sequence parameter set is refused |
| Pps.SliceGroupsRefused | mc-player/src/media/dxva_h264.cpp:251-255 | a set with slice groups is refused, as far as their number survives the cast to a byte |
| Pps.ScalingMatrixRefused | mc-player/src/media/dxva_h264.cpp:278-283 | a set with a scaling matrix is refused, whatever follows the flag |
| Pps.TruncatedRefused | mc-player/src/media/dxva_h264.cpp:243-291 | a set cut short before its last mandatory flag is refused |
| PicParams.FillRefs | mc-player/src/media/dxva_h264.cpp:507-525 | the slots hold slot number, long-term flag, POC and frame number of the usable ones of the first 16 references in order, the rest is unused, and exactly the two flag bits of each filled slot are set |
| PicParams.KeptExactly | mc-player/src/media/dxva_h264.cpp:507-525 | exactly the entries in use that have a slot number are kept, each as often as it is there |
| PicParams.KeptInOrder | mc-player/src/media/dxva_h264.cpp:507-525 | and in order |
| PicParams.NewestAreSent | mc-player/src/media/dxva_h264.cpp:507-525 | in every run the driver is told exactly the newest references, at most 16 and at most as many as every num_ref_frames since the IDR picture allows, newest first, each with its slot, POC and frame number |
| Poc.PocTracker.Compute | mc-player/src/media/dxva_h264.cpp:372-421 | the fields updated in place are those the stream theorems are about; a type other than 0 and 2 gives 0 and changes nothing |
| Poc.Type0RecoversIff | mc-player/src/media/dxva_h264.cpp:377-398 | type 0 recovers the true POC if and only if it differs from that of the last reference picture by more than minus half, and at most half, of the modulus (section 8.2.1.1) |
| Poc.Type0Stream | mc-player/src/media/dxva_h264.cpp:372-398 | over a whole stream of type 0 that keeps to this, coded with log2_max_pic_order_cnt_lsb, the entry point returns every POC, whatever frame_num says |
| Poc.Type0Fits | mc-player/src/media/dxva_h264.cpp:377-398 | in such a stream no 32-bit value overflows while POCs stay one modulus inside the 32-bit range |
| Poc.Type2Stream | mc-player/src/media/dxva_h264.cpp:400-418 | over a whole stream of type 2, coded with log2_max_frame_num, the entry point returns twice the unwrapped frame number, less one for a non-reference, across any number of wraps (section 8.2.1.3) |
| Poc.Type2Fits | mc-player/src/media/dxva_h264.cpp:400-418 | neither the unsigned offset nor the signed POC overflows while frame numbers stay below 2^30 |
| Poc.Type2GrowsIff | mc-player/src/media/dxva_h264.cpp:400-418 | exactly when the POC grows from one picture to the next |
| Poc.Type2Increases | mc-player/src/media/dxva_h264.cpp:400-418 | in a conforming stream POCs strictly increase in decode order between IDR pictures |
| Emulation.RbspUnescape | mc-player/src/media/depack_h264.cpp:103-114 | the counter-based loop equals its specification |
| Emulation.ExtractRbsp | mc-player/src/media/codec_dxva_video.cpp:202-215 | the pattern-based loop equals its specification |
| Emulation.RemovalLoopsAgree | mc-player/src/media/codec_dxva_video.cpp:202-215 | the two removal loops agree on every input |
| Emulation.RemovesExactly | mc-player/src/media/codec_dxva_video.cpp:202-215 | on every input exactly the 03 bytes behind two zeros are removed, by either loop |
| Emulation.ExtractUndoesEscapeIff | mc-player/src/media/depack_h264.cpp:103-114 | with either loop, removal undoes the escaping of sections 7.3.1 and 7.4.1 of H.264, final 03 included, if and only if the contents do not end in an odd number of zeros; then the final 03 is left behind (contents of the standard end in pairs of zeros, if in any) |
| Emulation.UnescapeUndoes | mc-player/src/media/depack_h264.cpp:103-114 | without the final 03 it undoes it for every byte string, whatever comes behind |
| Emulation.EscapedIsClean | mc-player/src/media/depack_h264.cpp:103-114 | escaped contents hold no start code and do not end in a zero |
| Emulation.EscapeHasNoPrefix | mc-player/src/media/depack_h264.cpp:103-114 | escaped output never contains 00 00 00, 00 00 01 or 00 00 02 |
| AnnexB.FindStartCode | mc-player/src/media/codec_dxva_video.cpp:217-223 | the first 00 00 01 from a position on, or the end |
| AnnexB.SplitAccessUnit | mc-player/src/media/codec_dxva_video.cpp:2494-2513 | the splitting loop equals its specification |
| AnnexB.SplitInvertsIff | mc-player/src/media/codec_dxva_video.cpp:2494-2513 | main result: splitting the start-coded concatenation of a list returns the list if and only if every unit has two bytes or more and contains no 00 00 01; units that end in zeros come back whole |
| AnnexB.SplitsAnything | mc-player/src/media/codec_dxva_video.cpp:2494-2513 | on every input: whatever comes before the first start code is skipped, and of the units between start codes of three or four bytes those with two bytes or more come out in order, less one final zero in front of a start code of three bytes |
| AnnexB.EveryInput | mc-player/src/media/codec_dxva_video.cpp:2494-2513 | every byte string is such an input |
| AnnexB.PayloadsSurvive | mc-player/src/media/codec_dxva_video.cpp:2494-2513 | from payloads through escaping, start codes, splitting and extraction: exactly the payloads that do not end in an odd number of zeros come back |
| DriverBuffer.Append | mc-player/src/media/codec_dxva_video.cpp:2200-2203 | bytes go right behind those written, the rest is untouched |
| DriverBuffer.AppendSlice | mc-player/src/media/codec_dxva_video.cpp:2200-2203 | a start code and the raw slice go right behind what was written |
| DriverBuffer.PlaceSlices | mc-player/src/media/codec_dxva_video.cpp:2193-2206 | the loop overflows if and only if the slices do not fit; otherwise the buffer holds each behind a start code and every entry is rewritten |
| DriverBuffer.Commit | mc-player/src/media/codec_dxva_video.cpp:2184-2222 | the whole new buffer and table, with the last slice padded; what lies behind is untouched |
| DriverBuffer.UsedAligns | mc-player/src/media/codec_dxva_video.cpp:2207-2222 | the used part ends on a multiple of 128 or at the end of the buffer, with less than 128 bytes of padding |
| DriverBuffer.RangesTile | mc-player/src/media/codec_dxva_video.cpp:2193-2221 | the rewritten ranges tile the used part in order, and each is 00 00 01 plus the original bytes, the last one plus the padding |
| DriverBuffer.PictureReachesDriver | mc-player/src/media/codec_dxva_video.cpp:2184-2231 | from the collected units to the driver: range k is a start code and unit k |
| Pipeline.CollectSlices | mc-player/src/media/codec_dxva_video.cpp:2637-2659 | the raw bytes of the slices behind each other, an entry for each, padded to a multiple of 128 |
| Pipeline.SlicesExactly | mc-player/src/media/codec_dxva_video.cpp:2637-2659 | exactly the units of types 1 and 5 are slices |
| Pipeline.SlicesReachDriver | mc-player/src/media/codec_dxva_video.cpp:2494-2669 | main result across files: however the units of a picture were put into packets, the driver gets exactly its slices in order |
| AccessUnits.AppendAnnexB | mc-player/src/media/depack_h264.cpp:25-28 | a start code and the unit are appended |
| AccessUnits.StampIsFirstIff | mc-player/src/media/depack_h264.cpp:319-322 | the last stamp up to the packet that first completes a unit is the first packet's if and only if that packet completes one |
| DepackH264.Depacketizer.constructor | mc-player/src/media/depack_h264.cpp:282-282 | nothing collected, references lost until the first anchor |
| DepackH264.Depacketizer.ConsumeNal | mc-player/src/media/depack_h264.cpp:328-340 | a complete unit goes into the access unit and sets flags and parameter sets by its type |
| DepackH264.Depacketizer.ReceiveStapA | mc-player/src/media/depack_h264.cpp:341-363 | the loop over the aggregated units equals consuming them in order, up to the first that does not fit |
| DepackH264.Depacketizer.StartFragments | mc-player/src/media/depack_h264.cpp:373-386 | a first fragment discards an unfinished unit, rebuilds the header byte and already marks an IDR unit |
| DepackH264.Depacketizer.ReceiveFuA | mc-player/src/media/depack_h264.cpp:364-405 | one fragment, in or out of a series |
| DepackH264.Depacketizer.EmitAccessUnit | mc-player/src/media/depack_h264.cpp:418-449 | the access unit with the parameter sets in front if asked for, and the flags after it |
| DepackH264.Depacketizer.BeginPacket | mc-player/src/media/depack_h264.cpp:315-323 | a change of time stamp emits what was collected |
| DepackH264.Depacketizer.ReceivePayload | mc-player/src/media/depack_h264.cpp:325-411 | dispatch by type; other aggregations count as a loss |
| DepackH264.Depacketizer.OnRtpPacket | mc-player/src/media/depack_h264.cpp:311-416 | equals one step of the runs below |
| DepackH264.Depacketizer.ResetStream | mc-player/src/media/depack_h264.cpp:478-488 | everything but the parameter sets is as new |
| H264Packets.AccessUnitsConserved | mc-player/src/media/depack_h264.cpp:311-476 | main result: in every run without a reset, with losses anywhere, everything emitted follows from the events alone: the packets taken in fall into one part for each access unit emitted and one for the buffer, divided where the time stamp changes or the marker is set; each body is exactly the units completed in its part, start-coded and in order, each with the time stamp of the packet that completed it; the anchor, recovery, loss and parameter-set flags, the sets in front and the arrival stamp are those of the part |
| H264Packets.PacketizationIndependent | mc-player/src/media/depack_h264.cpp:325-405 | main result: single units, STAP-A and fragments in any mixture have the effect of consuming the units in order: same access unit, parameter sets and flags (sections 5.6, 5.7.1 and 5.8 of RFC 6184) |
| H264Packets.AccessUnitDelivered | mc-player/src/media/depack_h264.cpp:311-449 | with a marker on the last packet exactly one access unit comes out: the latest parameter sets if it is an anchor, then the units; splitting it gives them back |
| H264Packets.LossHolds | mc-player/src/media/depack_h264.cpp:434-441 | while references are lost every access unit is marked, up to and including the next anchor, in every run |
| H264Packets.LossAlwaysMarks | mc-player/src/media/depack_h264.cpp:406-475 | after a loss at any place of any run, reported from outside or a payload that is not supported, every access unit emitted from then on is marked, up to and including the next anchor, and the state stays marked if none comes |
| H264Packets.FragmentsJoined | mc-player/src/media/depack_h264.cpp:364-475 | in every run a last fragment completes the rebuilt header of the last first fragment and all pieces since, if no loss was reported and no fragment was the last in between, and otherwise nothing |
| H264Packets.UnitsExact | mc-player/src/media/depack_h264.cpp:341-363 | on every input the units of a STAP-A are exactly those that are there in full |
| H264Packets.ResetStartsOver | mc-player/src/media/depack_h264.cpp:478-488 | after a reset in any state every run is that of a new depacketizer that knows the same parameter sets, behind what was emitted before |
| H264Packets.AnchorHonestIff | mc-player/src/media/depack_h264.cpp:328-449 | in every run an access unit is an anchor if and only if since the one before an IDR unit was taken whole or the first fragment of one arrived; so the mark tells whether it carries an IDR unit if and only if one was taken whole or a series of one began exactly if one ended (depack_h264.h, lines 13-18, promises an IDR unit) |
| H264Packets.AbandonedIdrIsAnchor | mc-player/src/media/depack_h264.cpp:373-386 | an abandoned IDR series makes the next access unit an anchor and ends the loss, though it carries only the next unit |
| H264Packets.StraddlingIdrIsNoAnchor | mc-player/src/media/depack_h264.cpp:373-404 | an access unit that carries an IDR unit is no anchor if another was emitted between its first and last fragment |
| H264Packets.ArrivalIsFirstIff | mc-player/src/media/depack_h264.cpp:319-322 | in every run with an advancing receive clock, the arrival stamp of an access unit is that of the first packet since the one before, as the comment says, if and only if that packet itself completed a unit |
| DepackH265.Depacketizer.constructor | mc-player/src/media/depack_h265.cpp:189-189 | nothing collected, references lost until the first anchor |
| DepackH265.Depacketizer.ConsumeNal | mc-player/src/media/depack_h265.cpp:278-284 | a complete unit goes into the access unit and sets flags and parameter sets by its type |
| DepackH265.Depacketizer.ReceiveAggregate | mc-player/src/media/depack_h265.cpp:221-237 | the loop equals consuming the units in order, up to the first that does not fit or lacks a header |
| DepackH265.Depacketizer.StartFragments | mc-player/src/media/depack_h265.cpp:247-260 | the two header bytes are rebuilt with the inner type |
| DepackH265.Depacketizer.ReceiveFragment | mc-player/src/media/depack_h265.cpp:238-274 | one fragment, in or out of a series |
| DepackH265.Depacketizer.EmitAccessUnit | mc-player/src/media/depack_h265.cpp:294-322 | the access unit with the three parameter sets in front if asked for, and the flags after it |
| DepackH265.Depacketizer.BeginPacket | mc-player/src/media/depack_h265.cpp:207-215 | a change of time stamp emits what was collected, with the parameter sets if it is an anchor |
| DepackH265.Depacketizer.ReceivePayload | mc-player/src/media/depack_h265.cpp:217-289 | dispatch by type; PACI and types above count as a loss |
| DepackH265.Depacketizer.OnRtpPacket | mc-player/src/media/depack_h265.cpp:203-292 | equals one step of the runs below |
| DepackH265.Depacketizer.ResetStream | mc-player/src/media/depack_h265.cpp:335-344 | everything but the parameter sets is as new |
| H265Packets.AccessUnitsConserved | mc-player/src/media/depack_h265.cpp:203-333 | conservation as for H.264, for every sequence of packets and losses, from the events alone |
| H265Packets.AnchorHonestIff | mc-player/src/media/depack_h265.cpp:221-287 | in every run an access unit that carries an IRAP unit is an anchor, and one that carries none is one if and only if a series of fragments of one began since the one before |
| H265Packets.LossAlwaysMarks | mc-player/src/media/depack_h265.cpp:275-333 | losses mark as for H.264 |
| H265Packets.FragmentsJoined | mc-player/src/media/depack_h265.cpp:238-333 | fragments are joined as for H.264, behind both rebuilt header bytes |
| H265Packets.UnitsExact | mc-player/src/media/depack_h265.cpp:221-237 | on every input the units of an aggregation packet are exactly those in front of the first that is not there in full or is shorter than a header |
| H265Packets.ResetStartsOver | mc-player/src/media/depack_h265.cpp:335-344 | after a reset in any state every run is that of a new depacketizer that knows the same parameter sets |
| H265Packets.PacketizationIndependent | mc-player/src/media/depack_h265.cpp:217-289 | single units, aggregation packets and fragments in any mixture have the effect of consuming the units in order, with the two-byte header rebuilt exactly (sections 4.4.1 to 4.4.3 of RFC 7798) |
| H265Packets.AccessUnitDelivered | mc-player/src/media/depack_h265.cpp:203-322 | with a marker on the last packet exactly one access unit comes out, and splitting it gives the units back |
| H265Packets.RecoveryNeverReported | mc-player/src/media/depack_h265.cpp:308-320 | no access unit ever reports a recovery point, although depack_h265.h (line 13) counts recovery SEI units as anchors |
| Clock.TicksToNsExact | mc-player/src/pal/clock.cpp:44-50 | the split form is the exact quotient ticks*10^9/hz, truncated, for every tick count of either sign, and 0 without a frequency |
| Clock.NsToTicksExact | mc-player/src/pal/clock.cpp:52-56 | the same for the other direction, for times of either sign |
| Clock.TicksToNsMonotone | mc-player/src/pal/clock.cpp:44-50 | time does not run backwards, on either side of zero |
| Clock.RemainderFitsIff | mc-player/src/pal/clock.cpp:44-50 | the scaled remainder fits 64 bits for every tick count of either sign if and only if the frequency is at most 9223372037 Hz |
| Clock.RemainderFitsBackIff | mc-player/src/pal/clock.cpp:52-56 | in the other direction if and only if it is at most 9223372046 Hz |
| Clock.NoIntermediateOverflow | mc-player/src/pal/clock.cpp:44-50 | if the result fits 64 bits and the frequency is in that range, so do all intermediate values, for either sign |
| Clock.NoIntermediateOverflowBack | mc-player/src/pal/clock.cpp:52-56 | the same in the other direction |
| Clock.RoundTrip | mc-player/src/pal/clock.cpp:44-56 | there and back loses at most one tick, toward zero, up to one tick per nanosecond |

## Left out

- JitterBuffer.JitterBufferVideo.OnRtp: requires that the extended number, cast to 32 bits, is at most
  2^32-258, so that no counter wraps. Beyond that only the scan is modelled, in `JitterWrap.dfy`; the
  unsigned comparisons of the other loops with wrapped numbers are not.
- JitterBuffer.JitterBufferVideo.AcceptDatagram: the same limit.
- JitterBuffer.JitterBufferVideo.DetectGapsAndNack: requires that the groups fit the 32-bit range, the exact
  condition of `JitterWrap.ScanIsGroupsIff`; what a scan that starts over does after that is not modelled.
- JitterTrace.TraceRefinement: needs that no force-skip steps over a waiting number, without which a
  reported loss is false (`JitterOrder.TruthfulIffClean`), and that each true number is within 32767 of the
  highest one seen, the reach of 16-bit numbers.
- DpbIntegrity.SlotIntegrity: once DecoderBeginFrame has succeeded, the source only logs a failed
  submission and goes on as if the picture had been decoded; so does the model, and "shows its picture"
  means that the slot was last given over to that picture.
- DepackH264.Depacketizer.OnRtpPacket: requires that no aggregated unit is empty, because the source reads
  the first byte of every unit (`nal.front()`), which is undefined for an empty one.
- H264Packets.AccessUnitDelivered: the arrival stamp of the access unit is not stated here; see
  `H264Packets.AccessUnitsConserved`.
- Poc.PocTracker.Compute: does not model 32-bit overflow of POC and frame_num_offset; `Poc.Type0Fits` and
  `Poc.Type2Fits` say for which streams there is none.
- DriverBuffer.PlaceSlices: does not model 32-bit wrap-around of slice sizes; slices are assumed smaller
  than 2^32 bytes.
- Pipeline.CollectSlices: the branches around the slice branch (parameter sets, slice headers, the start of
  a picture) are not part of it.
- Pipeline.SlicesReachDriver: one picture per access unit, with slice headers and parameter sets that the
  decoder accepts.
- Direct3D, DXVA, Media Foundation and WASAPI calls, dumps and readbacks: foreign calls.
- The relative order of NACK calls and emit or loss calls, the dwell histogram and the metrics; all three
  callbacks of the jitter buffer are taken to be installed.
- PTS pacing, logging, worker threads, queues between threads and the session lock: each component is
  modelled single-threaded.
- last_ref_dpb_idx (never set on the H.264 path), output_pending, fu_layer_id_ and fu_tid_ (never read).
- SPS and VUI parsing, slice headers, the SEI scan (a parameter of the H.264 depacketizer), base64 parameter
  sets from SDP (their result is a parameter of the conservation theorems).
- The HEVC DXVA path: a single reference and a weaker slot policy by design.
- Audio, rendering, adapter and tier selection, user interface: nothing here depends on them.
