# Media core of VOCAL, modelled and proved in Dafny

This project models the protocol and codec core of the repository: the RTP jitter buffer
from sender to playout, RADIUS messages, RTCP compound packets, the G.726, Base64 and STUN
codecs, NTP time, receiver statistics, and the allocation of media ports. Where the
original changes state in place the model does too (classes, arrays, loops), and each such
method is proved against a function on values; the laws are then lemmas about those
functions. `dafny verify dfyconfig.toml` checks everything.

## How it is laid out

- **Jitter buffer.** `SerialArithmetic` is the wrap-around comparison of numbers and
  timestamps. `JitterQueue` says what arrivals and playouts do to a queue of frames.
  `JitterBuffer` is the ring of slots with `inPos` and `playPos`, and proves that it
  refines the queue. `JitterArrival` says frame by frame what an arrival makes of the
  queue. `UniformStream` relates the queue to a window of unwrapped indices,
  `JitterRuns` proves what holds over whole runs, up to the end-to-end theorem,
  `JitterSchedule` which index each playout hands out and what becomes of those passed
  over, and `JitterService` drives the ring itself through a run and states this for it.
  `JitterMisled` has runs that break the ring. `Transmitter` is the sender whose
  stream the receiver assumes. A stream is *uniform* when packet u carries
  u mod 2^16 and (T0 + sampleSize * u) mod 2^32, with 0 < sampleSize < 1472 (the assertion
  of the receiver) and a ring of 1 to 1024 slots.
- **Statistics and time.** `ReceiverStatistics`, `NtpArithmetic`.
- **RADIUS.** `RadiusPassword` (the cipher chain over an arbitrary 16-octet hash),
  `RadiusAttributes` (parsing and encoding of attribute lists), `RadiusMessages` (whole
  packets), `RadiusHiding` (what the loop of `hideUserPassword` does to a list, and for
  which lists that is right), `RadiusFormat` (the same octets by offset and type),
  `RadiusBuffer` (the packet buffer and the list that `RadiusMessage` keeps), `RadiusExchange` (from one object to another).
- **RTCP.** `RtcpBlocks` (blocks as octets, the validity check), `RtcpFormat` (the same
  octets by offset, as RFC 1889 draws them), `RtcpArena`,
  `RtcpBuilder` (the transmitter), `RtcpRoom` (when its layout has room), `RtcpWalker` (the
  receiver), `RtcpOutcomes` (what any packet says to it), `RtcpExchange` (from one to the
  other).
- **Codecs.** `G726Coding`, `G726At40`, `G726At24`, `Base64`, `StunMessages`,
  `StunRoundTrip`, `StunOutcomes` (which octets are a message), `StunFormat` (which
  attribute is which field), `Stun`.
- **Ports.** `PortAllocation` (on values), `MediaSessions` (the objects).
- `Bytes` and `Options` are shared.

## What the code does that its documentation does not say

- **The self-check of the ring can fail.** `verifyJbSanity` is meant to pass always. It
  fails for exactly the arrivals that `JitterQueue.Misleads` describes: whether the play
  position moves when a full ring's oldest slot is overwritten is decided by comparing
  that slot's sequence number with the packet's. `ReadNetwork` passes the check if and
  only if the arrival is not one of these, and on a uniform stream none is. Other streams
  have them: `JitterMisled.LatePacketMisleads` and `RepeatedNumberMisleads` are runs from
  an empty ring to each of the two cases.
- **RTP_TIME_MOD** is 2^32 - 1, not 2^32; comparison is still total and right for times
  less than 2^31 apart.
- **Differences of NTP times** are negated as unsigned 32-bit numbers, so `t1 - t2` is not
  antisymmetric (`NtpArithmetic.SwappingOneSecond`; exactly when it is,
  `SwappingIsExact`). For the same reason `(t + ms) - t == ms` holds even when the seconds
  overflow.
- **`RtpSession::getJitter`** shifts by 4 what `RtpReceiver::getJitter` has already shifted
  by 4. The bound is proved on the receiver's figure, which is also the one in report
  blocks, and so holds of the session's.
- **`allocData`** clears the octets behind the ones it takes, so a field needs room twice;
  what it takes is zero because it was cleared before. A report that fits the arena may
  therefore not be laid out: with seven texts of 255 octets it has 1840 of 2048 octets and
  clears some behind the array (`RtcpRoom.LongDescriptionOverruns`). `TransmitRTCP` and
  `TransmitRTCPBYE` succeed exactly when `RegularRoom` and `FarewellRoom` hold; fitting is
  necessary, and fitting with 255 octets to spare is enough (`RegularRoomBounds`).
- **Report and source counts** have five bits: of more than 31 only the count modulo 32 is
  read (`RtcpWalker.BlockIsHeard` states this for every count).
- **`hideUserPassword`** does not advance its offset at a password, and writes the first
  password's value for each. Of two passwords of one block the second is sent in clear
  (`RadiusHiding.SecondStaysInClear`). The loop is right, whatever the hash, for exactly
  the lists that line up (`HidingIsExact`): those with at most one password
  (`AtMostOneLinesUp`) or with nothing but empty passwords right behind the first
  (`EmptyFollowersLineUp`), and a few more (`ThirdRepairsSecond`).
- **`verifyResponseAuthenticator` and `verifyAccountingRequestAuthenticator`** leave the
  authenticator they recompute in the packet.
- **STUN error codes and unknown attributes** are written with a length two octets too
  large. A message with exactly one of them never parses
  (`StunRoundTrip.OverlongDoesNotComeBack`), and one with both never comes back
  (`BothDoNotComeBack`): the round trip holds exactly without them (`RoundTripIsExact`).
- **The G.726 encoders** assert a string when samples are not 16 bits wide, which never
  fails: they answer success and an empty encoding.
- **`stunParseAtrUnknown`** reads only the first half of the words in its attribute, so a
  list comes back only when it is empty (`StunRoundTrip.UnknownComesBack`).

## Model

| member | source | states |
|---|---|---|
| `SerialArithmetic.SeqDifferenceIsNearest` | rtp/rtpTools.cxx:158-187 | The difference of two sequence numbers is congruent to their difference modulo 2^16, antisymmetric, and the nearest such number to zero |
| `SerialArithmetic.SeqDifferenceRecovers` | rtp/rtpTools.cxx:158-187 | For indices less than 32768 apart, the difference of their 16-bit numbers is the difference of the indices |
| `SerialArithmetic.SeqDifferenceSteps` | rtp/rtpTools.cxx:158-187 | One more on the second operand is one less in a positive difference, across the wrap: the measure that ends silence patching |
| `SerialArithmetic.TimeGreaterIsTotal` | rtp/rtpTools.cxx:190-220 | Of two different timestamps exactly one is greater, none is greater than itself, and of two that are 2^31 apart it is the smaller number |
| `SerialArithmetic.TimeGreaterRecovers` | rtp/rtpTools.cxx:190-220 | For media times less than 2^31 apart, comparing their 32-bit timestamps compares the media times |
| `JitterQueue.PatchStep` | rtp/RtpReceiver.cxx:294-318 | Each silence patched brings the newest number one closer to the packet |
| `JitterQueue.WaysToStore` | rtp/RtpReceiver.cxx:252-370 | The three ways to place a packet in the queue; exactly which arrivals make the ring lose track of its play position (a late packet with another number written over the oldest slot of a full ring, or an appended packet that repeats the oldest number); a first packet never does |
| `JitterArrival.StoreIsExact` | rtp/RtpReceiver.cxx:252-370 | The queue after any arrival, frame by frame, whatever its number and time: primed afresh when more than a ring ahead; when ahead, the newest frames of the old queue, its patch and the packet; when late, the same queue with the one slot replaced that many places back |
| `JitterArrival.PatchIsExact` | rtp/RtpReceiver.cxx:294-318 | Patching appends the least number n of silences, one number and one packet's time apart, after which number and time no longer both show a gap; a full ring keeps the newest |
| `JitterBuffer.CountOf` | rtp/RtpReceiver.cxx:1016-1033 | The count never exceeds the size, and the play position plus the count, wrapped, is the input position: full and empty are told apart |
| `JitterBuffer.WriteWithin` | rtp/RtpReceiver.cxx:436-487 | Writing over a queued slot changes that one frame of the queue |
| `JitterBuffer.ReleaseOldest` | rtp/RtpReceiver.cxx:625-627 | Marking the slot at the play position unused and stepping on removes the oldest frame |
| `JitterBuffer.FillNext` | rtp/RtpReceiver.cxx:489-532 | Filling the slot at the input position and stepping on appends a frame, and in a full ring costs the oldest |
| `JitterBuffer.RtpReceiver.constructor` | rtp/RtpReceiver.cxx:141-155 | A new ring stands for the empty queue |
| `JitterBuffer.RtpReceiver.PreviousSlotHolds` | rtp/RtpReceiver.cxx:1001-1012 | For 1 <= k <= count, calculatePreviousInPos(k) is the slot of the k-th newest frame, whatever the positions |
| `JitterBuffer.RtpReceiver.OldestSlotIsFirst` | rtp/RtpReceiver.cxx:559-561 | The slot at the play position is in use and holds the oldest frame |
| `JitterBuffer.RtpReceiver.ClearJitterBuffer` | rtp/RtpReceiver.cxx:880-888 | Leaves the empty queue |
| `JitterBuffer.RtpReceiver.InsertSilenceRtpData` | rtp/RtpReceiver.cxx:489-532 | Pushes a silence with the given number and time |
| `JitterBuffer.RtpReceiver.SetRtpData` | rtp/RtpReceiver.cxx:436-487 | The slot becomes the packet and no other slot changes; the play position moves exactly when a full ring's oldest slot is overwritten by another number |
| `JitterBuffer.RtpReceiver.AppendRtpData` | rtp/RtpReceiver.cxx:430-434 | Pushes the packet, except when it repeats the oldest number of a full ring: then the self-check fails |
| `JitterBuffer.RtpReceiver.WriteLateRtpData` | rtp/RtpReceiver.cxx:357-368 | Replaces the frame that many places back, except when that is the oldest of a full ring under another number: then the self-check fails |
| `JitterBuffer.RtpReceiver.VerifyJbSanity` | rtp/RtpReceiver.cxx:937-985 | Passes exactly when the slots in use are the count slots from the play position on |
| `JitterBuffer.RtpReceiver.PrimeWithSilence` | rtp/RtpReceiver.cxx:264-281 | Half the buffer less one is filled with silences that count up to the packet |
| `JitterBuffer.RtpReceiver.PatchWithSilence` | rtp/RtpReceiver.cxx:294-318 | Ends for any timestamps, and fills the gap as the queue model says |
| `JitterBuffer.RtpReceiver.GetLastRtpData` | rtp/RtpReceiver.cxx:422-427 | The newest frame, or nothing when the queue is empty |
| `JitterBuffer.RtpReceiver.StorePacket` | rtp/RtpReceiver.cxx:252-372 | The queue afterwards is the one the model prescribes, and the self-check passes, exactly when the arrival does not mislead the ring |
| `JitterBuffer.RtpReceiver.ReadNetwork` | rtp/RtpReceiver.cxx:230-372 | The same for any payload size; a payload outside 1..1012 octets is counted, no other is, and changes neither slots nor positions nor the queue |
| `JitterBuffer.RtpReceiver.Retrieve` | rtp/RtpReceiver.cxx:535-637 | Hands out the first frame, or the second when the first is a silence and more than half the buffer and one are queued; the queue loses exactly those: a frame that leaves and is not handed out is a silence |
| `UniformStream.GapShows` | rtp/RtpReceiver.cxx:299-318 | On a uniform stream the timestamps show a gap exactly when an index is missing, and the patch is the silence of the next index |
| `UniformStream.PatchCommutes` | rtp/RtpReceiver.cxx:294-341 | Patching before packet u inserts exactly the silences of the missing indices, ending at u - 1 with its media time |
| `UniformStream.PrimeCommutes` | rtp/RtpReceiver.cxx:264-281 | Priming before packet u queues exactly the silences of the indices before u |
| `UniformStream.ReceiveCommutes` | rtp/RtpReceiver.cxx:252-372 | The arrival of packet u moves the window of indices as u alone says, lands in its own slot, and never misleads the ring |
| `UniformStream.WriteLateCommutes` | rtp/RtpReceiver.cxx:347-369 | A late or duplicate packet that is not dropped replaces exactly the frame of its own index, and moves neither end of the window |
| `UniformStream.PlayCommutes` | rtp/RtpReceiver.cxx:535-637 | Playout hands out the frame of the window's next index |
| `JitterRuns.PatchConserves` | rtp/RtpReceiver.cxx:294-318 | For any timestamps, patching fills fewer slots than the sequence numbers differ, and keeps the books |
| `JitterRuns.PatchIsShorterThanRing` | rtp/RtpReceiver.cxx:252-318 | For any timestamps, patching fills at most cur_max_jbs - 1 slots |
| `JitterRuns.RunConserves` | rtp/RtpReceiver.cxx:208-637 | Over every run: slots appended since the last clear = played + silences discarded + overrun when full + still queued; the arrival of a packet that is late changes none of these counts |
| `JitterRuns.StepCommutes` | rtp/RtpReceiver.cxx:208-637 | One arrival or playout of a uniform stream keeps queue and window in step |
| `JitterRuns.RunCommutes` | rtp/RtpReceiver.cxx:208-637 | Over every run on a uniform stream, with arrivals within 32767 of the newest index, the queue is the one the window of indices describes, and no arrival misleads the ring |
| `JitterRuns.PlayoutsIncrease` | rtp/RtpReceiver.cxx:535-637 | In a busy period the indices handed out strictly increase |
| `JitterRuns.StoredMeansArrivedInTime` | rtp/RtpReceiver.cxx:347-369 | In a busy period a queued index is voice exactly when its packet arrived while its slot was still to be played |
| `JitterRuns.EndToEnd` | rtp/RtpReceiver.cxx:208-637 | Through a network that drops, duplicates and reorders: each playout of a busy period hands out one index's own packet if it arrived in time, silence if it did not, and the indices strictly increase |
| `JitterRuns.WhatIsCounted` | rtp/RtpReceiver.cxx:430-637 | What the books of RunConserves count: one appended for each frame pushed and one overrun if the ring was full; at a playout one played if a frame left and one discarded if two did |
| `JitterSchedule.PlayoutIsExact` | rtp/RtpReceiver.cxx:208-637 | Which index each playout of a busy period hands out, said of arrivals and indices alone: the one after the last handed out, or the oldest within a ring of the newest arrival; or, only when that has not arrived and more than half the ring and one are queued, the one after it. It is the packet if that has arrived before, and silence if not |
| `JitterSchedule.PassedOver` | rtp/RtpReceiver.cxx:535-637 | Every index strictly between two that are handed out one after the other, and every one before the first, had not arrived, or was overrun by a packet a whole ring ahead of it: voice in time is never thrown away |
| `JitterSchedule.ArrivalIsExact` | rtp/RtpReceiver.cxx:252-372 | The queue after the arrival of packet u of a uniform stream, frame by frame, in each of the four cases |
| `JitterMisled.LatePacketMisleads` | rtp/RtpReceiver.cxx:347-369 | A run that ends in a failing self-check: a ring of two slots, packets 10 and 12 and then a late 11, all with one timestamp |
| `JitterMisled.RepeatedNumberMisleads` | rtp/RtpReceiver.cxx:430-434 | And one for the other branch: a ring of 256 slots filled by 256 packets 256 numbers apart, then the number of the oldest again |
| `JitterService.Serve` | rtp/RtpReceiver.cxx:208-637 | Driving the ring with every event of such a run: every self-check passes, every playout hands out the frame the queue hands out, and the ring ends as the queue of the run |
| `JitterService.ServeBusyPeriod` | rtp/RtpReceiver.cxx:208-637 | The end-to-end theorem for the ring itself, fed with packets that the transmitter has sent: each playout hands out the payload sent under its index if that has arrived and silence if not; the index is the one due, a due index that has not arrived being skipped exactly when more than half the ring and one are queued; every index passed over had not arrived or was overrun; the indices strictly increase, and every self-check passes, also that of the packet that opens the period |
| `Transmitter.RtpTransmitter.Transmit` | rtp/RtpTransmitter.cxx:188-255 | Number and time follow the previous packet unless already set; an event packet does not move the media clock |
| `Transmitter.RtpTransmitter.TransmitRaw` | rtp/RtpTransmitter.cxx:262-278 | The n-th payload leaves as packet n of a uniform stream |
| `Transmitter.RtpTransmitter.SentPacketIsOnStream` | rtp/RtpTransmitter.cxx:262-278 | Every packet sent is the one its index has in the stream the receiver assumes |
| `Transmitter.RtpTransmitter.SentIsUniform` | rtp/RtpTransmitter.cxx:262-278 | With acceptable payload sizes the stream sent meets the receiver's hypothesis |
| `ReceiverStatistics.JitterIsBounded` | rtp/RtpReceiver.cxx:382-410 | Over every run of delays at most D, 0 <= jitter <= 16 D + 7, so jitter >> 4 never exceeds D |
| `ReceiverStatistics.JitterStep` | rtp/RtpReceiver.cxx:406-410 | Each step takes the scaled estimate a sixteenth of the way to 16 times the delay, rounded to the nearest |
| `ReceiverStatistics.JitterStaysInBand` | rtp/RtpReceiver.cxx:406-410 | An estimate between the least and the greatest delay stays there |
| `ReceiverStatistics.JitterApproachesBand` | rtp/RtpReceiver.cxx:406-410 | An estimate outside the band of the delays moves towards it |
| `ReceiverStatistics.JitterIsMonotone` | rtp/RtpReceiver.cxx:406-410 | Larger delays never give a smaller estimate |
| `ReceiverStatistics.CycleIsCounted` | rtp/RtpReceiver.cxx:761-770 | An in-order step is counted right if and only if it does not wrap or is below 55536 |
| `ReceiverStatistics.CountIsQuotient` | rtp/RtpReceiver.cxx:761-770 | Over every in-order run with such steps the count is the index divided by 65536, in 32 bits |
| `ReceiverStatistics.CyclesGiveIndex` | rtp/RtpReceiver.cxx:761-770 | Over every such run recv_cycles * 65536 + realPrevSeqRecv is the index of the latest packet, as far as 32 bits of cycles reach |
| `ReceiverStatistics.SourceFigures.UpdateJitter` | rtp/RtpReceiver.cxx:379-410 | The delay as the 32-bit difference of transit times, taken as none beyond 500000 on either side; the transit time kept, or zero then; and the estimate within its bound after every update |
| `ReceiverStatistics.SourceFigures.UpdateCycles` | rtp/RtpReceiver.cxx:761-770 | The count and the number give the index of every in-order run |
| `NtpArithmetic.AfterMeansMoreTicks` | rtp/NtpTime.cxx:168-188 | The order on times is the order on the 64-bit instants |
| `NtpArithmetic.PlusAddsTicks` | rtp/NtpTime.cxx:77-89 | Addition with carry adds the instants, up to the wrap of the clock |
| `NtpArithmetic.AddMs` | rtp/NtpTime.cxx:77-89 | The two-sided test finds exactly the carries |
| `NtpArithmetic.Subtract` | rtp/NtpTime.cxx:124-165 | The branches compute the milliseconds of the span, or their negation in 32 unsigned bits |
| `NtpArithmetic.DifferenceIsExact` | rtp/NtpTime.cxx:124-165 | In terms of the 64-bit instants alone: thousand times the whole seconds of the span and one for each 4294967 of the rest, in 32 bits; of a negative span, its 32-bit negation |
| `NtpArithmetic.MillisIsFloorOrOneMore` | rtp/NtpTime.cxx:124-165 | Within 49 days a difference is the true floor of the milliseconds or one more |
| `NtpArithmetic.MillisIsMonotone` | rtp/NtpTime.cxx:124-165 | Within that range a longer span never gives fewer milliseconds |
| `NtpArithmetic.SwappingNegates` | rtp/NtpTime.cxx:124-165 | Swapping the operands negates the result modulo 2^32 |
| `NtpArithmetic.SwappingIsExact` | rtp/NtpTime.cxx:124-165 | As signed numbers the two differences are opposite if and only if the milliseconds of the span are a multiple of 2^32; for times no more than 49 days apart, if and only if they are less than a millisecond apart |
| `NtpArithmetic.SwappingOneSecond` | rtp/NtpTime.cxx:124-165 | The counterexample to antisymmetry: one second apart gives 1000 and 4294966296 |
| `NtpArithmetic.AddThenSubtract` | rtp/NtpTime.cxx:77-165 | (t + ms) - t is ms for every t and ms, also when the seconds overflow |
| `Bytes.XorUndoes` | radius/RadiusMessage.cxx:417-420 | Exclusive or with the same octet twice gives the octet back |
| `Bytes.XorIsExclusiveOr` | radius/RadiusMessage.cxx:417-420 | It is exclusive or of the octets, bit by bit, for all octets |
| `Bytes.NetworkOrder` | radius/RadiusMessage.cxx:124-137 | Numbers are read and written highest octet first |
| `RadiusPassword.RevealUndoesHide` | radius/RadiusMessage.cxx:381-469 | For every secret, authenticator and 16-octet hash, revealing undoes hiding on every password of whole blocks |
| `RadiusPassword.HideUndoesReveal` | radius/RadiusMessage.cxx:381-469 | And hiding undoes revealing |
| `RadiusPassword.HideIsChain` | radius/RadiusMessage.cxx:381-424 | What is hidden is the chain of section 5.2 of RFC 2865, octet by octet: octet i is the exclusive or of octet i of the password with octet i mod 16 of the hash over the secret and the block before, or the authenticator for the first block |
| `RadiusPassword.RevealIsChain` | radius/RadiusMessage.cxx:427-469 | Of what is revealed, what was hidden is the chain |
| `RadiusPassword.EncodeUserPassword` | radius/RadiusMessage.cxx:381-424 | The forward loop over its own output leaves the chain of section 5.2 of RFC 2865, octet by octet the exclusive or of password and hash, and writes nothing else |
| `RadiusPassword.DecodeUserPassword` | radius/RadiusMessage.cxx:427-469 | The backward loop over its input leaves the password of which the input is that chain, octet by octet |
| `RadiusAttributes.NewAttribute` | radius/RadiusAttribute.cxx:68-119 | A password is padded with zeros to a multiple of 16, nothing else changes, and the attribute is well formed; or the padding overruns its buffer, exactly for passwords of more than 240 octets that need it |
| `RadiusAttributes.Encode` | radius/RadiusAttribute.cxx:124-168 | The octets of an attribute, with or without a vendor id |
| `RadiusAttributes.DecodeUndoesEncode` | radius/RadiusMessage.cxx:183-292 | A body encoded from any admissible list decodes to that list, its passwords revealed |
| `RadiusAttributes.EncodeUndoesDecode` | radius/RadiusMessage.cxx:183-292 | A body that decodes is exactly the encoding of its list: the lengths partition it |
| `RadiusAttributes.DecodeIsExact` | radius/RadiusMessage.cxx:183-292 | A body decodes to a list if and only if the list is admissible and the body is its encoding |
| `RadiusMessages.ReceiveUndoesWire` | radius/RadiusMessage.cxx:124-173 | A packet built from an admissible list, an accounting request with the right signature, is accepted with the same code, identifier, authenticator and list |
| `RadiusMessages.AcceptedWasWire` | radius/RadiusMessage.cxx:124-173 | Whatever is accepted was the encoding of what came out, with nothing left over |
| `RadiusMessages.HidingOnePassword` | radius/RadiusMessage.cxx:474-511 | Hiding the one password rewrites the octets of its value and no others |
| `RadiusFormat.EncodableIsExact` | radius/RadiusAttribute.cxx:68-119 | Which attributes can be sent: type 26 exactly with a vendor id, a password (type 2) of whole blocks, and a value that fits the length octet |
| `RadiusFormat.BodyHasFormat` | radius/RadiusAttribute.cxx:124-168 | An encoded body has each attribute where the lengths before it put it: type, length, vendor id in network order for type 26, value |
| `RadiusFormat.HiddenIsExact` | radius/RadiusMessage.cxx:474-511 | Hiding a list makes the chain of each value of type 2 and leaves every other value, type and vendor id |
| `RadiusFormat.WireHasFormat` | radius/RadiusMessage.cxx:124-173 | A packet has code, identifier, length in network order, authenticator and body at octets 0, 1, 2, 4 and 20 |
| `RadiusFormat.SignatureIsDigest` | radius/RadiusMessage.cxx:589-645 | The signature is the hash over the octets of the packet followed by those of the secret |
| `RadiusFormat.AcceptedIsExact` | radius/RadiusMessage.cxx:124-173 | Which octets are accepted, and as which list: of 20 to 4096 octets, as many as the length field says, the body the hidden encoding of the list, passwords only with code 1, and with code 4 an authenticator that is the hash over the packet with 16 zeros in its place and the secret |
| `RadiusBuffer.RadiusMessage.Request` | radius/RadiusMessage.cxx:73-88 | A request starts with zero authenticator and no attributes |
| `RadiusBuffer.RadiusMessage.Response` | radius/RadiusMessage.cxx:95-119 | A response starts with the request's identifier and keeps its authenticator |
| `RadiusBuffer.RadiusMessage.Add` | radius/RadiusMessage.cxx:339-361 | Appends the attribute to packet, length field and list together, or changes nothing when it does not fit |
| `RadiusBuffer.RadiusMessage.HideUserPassword` | radius/RadiusMessage.cxx:474-511 | For every list, and a packet hidden before or not: the packet becomes what the loop makes of it, with the first password hidden; without a password nothing changes. Or the password overruns its buffer, exactly from 257 octets on |
| `RadiusBuffer.RadiusMessage.ReplacePassword` | radius/RadiusMessage.cxx:494-511 | For every list, and a body hidden before or not: one write for each password, of the first one's value, at the offset the loop computes, which no password advances |
| `RadiusHiding.HidingForgets` | radius/RadiusMessage.cxx:474-511 | Hiding again, under another authenticator, secret or hash, leaves what hiding once under the second would have left |
| `RadiusHiding.LinedUpIsHidden` | radius/RadiusMessage.cxx:474-511 | A list that lines up is hidden right under every hash, secret and authenticator: what the loop leaves is the encoding of the list with every password hidden |
| `RadiusHiding.HidingIsExact` | radius/RadiusMessage.cxx:474-511 | The loop hides a list right under every hash if and only if the list lines up: every password is empty or equal to the first, and the loop's offsets fall exactly on the passwords that are not empty; for every list that fits a packet, and whatever the secret, code and authenticator |
| `RadiusHiding.AtMostOneLinesUp` | radius/RadiusMessage.cxx:474-511 | A list with at most one password lines up |
| `RadiusHiding.EmptyFollowersLineUp` | radius/RadiusMessage.cxx:474-511 | So does one in which only empty passwords follow the first, with no other attribute between |
| `RadiusHiding.SecondStaysInClear` | radius/RadiusMessage.cxx:474-511 | Of two passwords of one block the second is sent in clear, under every hash; such a list does not line up |
| `RadiusHiding.ThirdRepairsSecond` | radius/RadiusMessage.cxx:474-511 | A list can line up although the second password is not empty: the write for a third, empty one lands on it |
| `RadiusBuffer.RadiusMessage.CalcAccessRequestAuthenticator` | radius/RadiusMessage.cxx:552-583 | The authenticator is the hash of clock, server address and identifier, or unchanged without an address; or the input of the hash overruns its buffer, exactly for an address of more than 251 octets |
| `RadiusBuffer.RadiusMessage.CalcResponseAuthenticator` | radius/RadiusMessage.cxx:589-615 | The signature over the packet that carries the request's authenticator |
| `RadiusBuffer.RadiusMessage.CalcAccountingRequestAuthenticator` | radius/RadiusMessage.cxx:621-645 | The signature over the packet that carries a zero authenticator |
| `RadiusBuffer.RadiusMessage.CalcAuthenticator` | radius/RadiusMessage.cxx:516-546 | For each kind of packet: the password hidden as the loop does it and the authenticator from clock, address and identifier, or unchanged without an address; or the body unchanged and the signature over it. It can be repeated, and says exactly when an address or a password overruns its buffer |
| `RadiusBuffer.RadiusMessage.VerifyAccountingRequestAuthenticator` | radius/RadiusMessage.cxx:294-312 | True exactly when the authenticator received is the one recomputed |
| `RadiusBuffer.RadiusMessage.VerifyResponseAuthenticator` | radius/RadiusMessage.cxx:314-337 | True exactly when the response was signed for this request's authenticator |
| `RadiusBuffer.RadiusMessage.DecodeAttributes` | radius/RadiusMessage.cxx:183-292 | Ends on every input, with the list the body encodes or the fault of its first bad attribute |
| `RadiusBuffer.RadiusMessage.ReadRaw` | radius/RadiusMessage.cxx:124-173 | The constructor from raw octets accepts, rejects or aborts as the specification of reception says |
| `RadiusBuffer.RadiusMessage.SentIsReceived` | radius/RadiusMessage.cxx:124-173 | What calcAuthenticator leaves ready to send is read back, with the same secret, as the list composed |
| `RadiusExchange.Request` | radius/RadiusMessage.cxx:124-173 | From object to object: attributes added, authenticator calculated, read by another object with the same secret: a request that lines up is accepted with its code, identifier and list, however often its authenticator was calculated; exactly unless its address overruns a buffer |
| `RadiusExchange.Response` | radius/RadiusMessage.cxx:314-337 | The same for a response, which is then found to be signed for the request it answers |
| `RtcpArena.RtcpPacket.constructor` | rtp/RtcpPacket.cxx:86-91 | An empty arena of zeros |
| `RtcpArena.RtcpPacket.AllocData` | rtp/RtcpPacket.cxx:113-124 | Takes the octets and clears as many behind them, leaving those taken as they were; or reports, exactly when there is no room for both, that the assertion fails or the clearing leaves the array |
| `RtcpArena.RtcpPacket.AppendText` | rtp/RtcpTransmitter.cxx:390-394 | A text copied before its room is allocated is kept, and everything behind it stays zero; exactly when there is room for it twice |
| `RtcpArena.RtcpPacket.SetTotalUsage` | rtp/RtcpPacket.cxx:139-143 | The usage becomes the size received |
| `RtcpBuilder.AddReports` | rtp/RtcpTransmitter.cxx:228-290 | One report block for each transmitter heard and off probation, counted in five bits; exactly when the last has room twice |
| `RtcpBuilder.ReportsAreCounted` | rtp/RtcpTransmitter.cxx:228-290 | Of each transmitter in turn: one block if it was heard and is off probation, and none otherwise |
| `RtcpBuilder.AddSR` | rtp/RtcpTransmitter.cxx:191-316 | Appends exactly the octets of a sender or receiver report, whose fields RtcpFormat.ReportHasFormat gives offset by offset; succeeds exactly when each of its fields has room twice |
| `RtcpFormat.ReportHasFormat` | rtp/rtpTypes.h:257-334 | A report has each of its fields in network order at its offset in sections 6.3.1 and 6.3.2 of RFC 1889: count, type 200 or 201, length, the six of the sender and the eight of the i-th report block |
| `RtcpFormat.SdesHasFormat` | rtp/RtcpTransmitter.cxx:396-489 | A description has type 202, the source, and each item where the lengths before it put it, then an end of zeros up to its length |
| `RtcpFormat.ByeHasFormat` | rtp/RtcpTransmitter.cxx:505-562 | A goodbye has type 203, the source, the length of the reason and the reason, then zeros up to its length |
| `RtcpFormat.CheckIsExact` | rtp/RtcpReceiver.cxx:155-186 | The check accepts exactly the octets that begin with type 200 or 201 without padding and divide into blocks of version 2, each as long as its length field says |
| `RtcpBuilder.TextsByType` | rtp/rtpTypes.h:241-252 | Types 1 to 7 are canonical name, name, email, phone, location, tool and note |
| `RtcpBuilder.NonEmptyLists` | rtp/RtcpTransmitter.cxx:371-388 | The default list has exactly the types with a text, in order |
| `RtcpBuilder.AddSDES` | rtp/RtcpTransmitter.cxx:396-489 | Appends exactly the octets of the description block: items, end, padding and length; succeeds exactly when each of its fields has room twice |
| `RtcpBuilder.AddBYE` | rtp/RtcpTransmitter.cxx:505-562 | Appends exactly the octets of the goodbye block, a long reason cut to its length modulo 256; succeeds exactly when each of its fields has room twice |
| `RtcpBuilder.TransmitRTCP` | rtp/RtpSession.cxx:838-863 | In a sending state: a report, then the description if there is a sender, each field at its offset in RFC 1889; otherwise nothing. Succeeds exactly when the layout has room |
| `RtcpBuilder.TransmitRTCPBYE` | rtp/RtpSession.cxx:869-894 | A report, then name and goodbye if there is a sender, each field at its offset in RFC 1889. Succeeds exactly when the layout has room |
| `RtcpBuilder.RegularHasFormat` | rtp/RtpSession.cxx:838-863 | The octets of a regular report have every field of report and description at its offset |
| `RtcpBuilder.FarewellHasFormat` | rtp/RtpSession.cxx:869-894 | And those of a last report, with the canonical name and the goodbye |
| `RtcpRoom.RegularRoomBounds` | rtp/RtpSession.cxx:838-863 | A regular report that can be laid out fits the arena; one that fits it with 255 octets to spare can be laid out |
| `RtcpRoom.FarewellRoomBounds` | rtp/RtpSession.cxx:869-894 | The same for a last report |
| `RtcpRoom.LongDescriptionOverruns` | rtp/RtcpTransmitter.cxx:396-489 | Between the two the layout can fail: seven texts of 255 octets make a report of 1840 octets whose layout clears octets behind the 2048 of the array |
| `RtcpBlocks.PartitionIsExact` | rtp/RtcpReceiver.cxx:155-186 | Octets divide into blocks in one way only |
| `RtcpBlocks.CompoundIsValid` | rtp/RtcpReceiver.cxx:155-222 | Every compound packet that starts with a report passes the check of section A.2 of RFC 1889, and divides into exactly its blocks, ending on the last octet |
| `RtcpWalker.WalkFollowsPartition` | rtp/RtcpReceiver.cxx:190-222 | On anything that passes the check the walk visits exactly the blocks of the partition, in order |
| `RtcpWalker.HearReportBytes` | rtp/RtcpReceiver.cxx:318-373 | The report blocks built are read back, as many as the count says |
| `RtcpWalker.HearItemBytes` | rtp/RtcpReceiver.cxx:420-439 | The item walk gives back the emitted (type, length, text) list and stops at its end |
| `RtcpWalker.HearSourceBytes` | rtp/RtcpReceiver.cxx:503-517 | The sources of a goodbye are read back |
| `RtcpWalker.BlockIsHeard` | rtp/RtcpReceiver.cxx:190-222 | A block means to the receiver what was put into it; of more than 31 reports or sources only the count modulo 32 |
| `RtcpWalker.MiddleBitsAreMiddle` | rtp/RtcpReceiver.cxx:261-284 | The timestamp kept of a sender report is the middle 32 bits of its 64-bit time |
| `RtcpWalker.MeaningIs` | rtp/RtcpReceiver.cxx:261-377 | What is heard of a report, a description and a goodbye, entry by entry: the middle bits of the sender's time, last report and delay of each block, the items, the sources that leave |
| `RtcpWalker.CompoundIsHeard` | rtp/RtcpReceiver.cxx:190-222 | A compound packet is heard as what its blocks mean, in order, whatever lies behind it in the buffer |
| `RtcpWalker.ShortIsCompound` | rtp/RtcpPacket.cxx:86-124 | Blocks that fit the arena and start with a report make a compound packet |
| `RtcpWalker.RegularIsHeard` | rtp/RtpSession.cxx:838-863 | A sender's regular report is heard whole and makes the sender known |
| `RtcpWalker.FarewellIsHeard` | rtp/RtpSession.cxx:869-894 | A sender's last report is heard whole and makes the sender unknown, even if it was never heard before |
| `RtcpWalker.LostIsExact` | rtp/RtcpReceiver.cxx:602-626 | Of what is said, hearing is lost exactly when a source leaves that is not known then; otherwise those known afterwards are those last spoken of otherwise than as leaving |
| `RtcpOutcomes.PacketHeard` | rtp/RtcpReceiver.cxx:190-222 | Hearing a packet that passes the check is hearing what its blocks say one after the other, or being lost if one of them cannot be read |
| `RtcpOutcomes.LossIsExact` | rtp/RtcpReceiver.cxx:190-222 | Of all packets that pass the check, the walk leaves the array or fails an assertion for exactly those with a block that cannot be read and those in which an unknown source leaves |
| `RtcpOutcomes.UnreadIsExact` | rtp/RtcpReceiver.cxx:190-222 | A packet cannot be read exactly when one of its blocks cannot: its count or a length reaches behind the array, or its type is APP |
| `RtcpOutcomes.ReadableByType` | rtp/RtcpReceiver.cxx:190-222 | By type: 200 cannot be read if shorter than 28 octets and 24 for each report counted, 201 if shorter than 8 and 24 for each, 203 if shorter than 4 for the header and for each source, 204 never; unknown types say nothing |
| `RtcpExchange.Deliver` | rtp/RtcpReceiver.cxx:155-222 | From octets to object: every compound packet passes the check and is heard as what its blocks mean, exactly unless an unknown source leaves; the answer is 1 exactly with a goodbye among the blocks |
| `RtcpExchange.RegularExchange` | rtp/RtpSession.cxx:838-863 | From session to receiver: a regular report, exactly when it can be laid out, passes the check, is heard whole, and makes its sender known |
| `RtcpExchange.FarewellExchange` | rtp/RtpSession.cxx:869-894 | And a last report makes it unknown, with the answer 1 when there was a sender |
| `RtcpWalker.RtcpReceiver.IsValid` | rtp/RtcpReceiver.cxx:155-186 | Accepts exactly the packets of section A.2 of RFC 1889 |
| `RtcpWalker.RtcpReceiver.ReadSR` | rtp/RtcpReceiver.cxx:261-377 | Reads a report as specified, or reports that the walk leaves the packet |
| `RtcpWalker.RtcpReceiver.ReadSDES` | rtp/RtcpReceiver.cxx:420-439 | Reads a description as specified, or reports that the walk leaves the packet |
| `RtcpWalker.RtcpReceiver.ReadBYE` | rtp/RtcpReceiver.cxx:503-517 | Forgets each source, or reports the failed assertion on one it does not know |
| `RtcpWalker.RtcpReceiver.ReadRTCP` | rtp/RtcpReceiver.cxx:190-222 | Reads a valid packet as specified; answers 1 exactly when a block is a goodbye |
| `RtcpWalker.RtcpReceiver.FindRTCP` | rtp/RtcpReceiver.cxx:226-242 | The offset of the first block of a type |
| `RtcpWalker.FirstOfTypeIsFirst` | rtp/RtcpReceiver.cxx:226-242 | That offset is the total length of the blocks before it, none of which has the type |
| `G726At40.CodesOfWord5` | libmedia/CodecG726_40.cxx:98-135 | Eight codes of five bits are the digits of one 40-bit number |
| `G726At40.UnpackUndoesPack5` | libmedia/CodecG726_40.cxx:98-187 | Unpacking gives back the codes packed |
| `G726At40.PackUndoesUnpack5` | libmedia/CodecG726_40.cxx:98-187 | Every octet string of whole groups is the packing of its codes |
| `G726At40.AssembledIsPacked5` | libmedia/CodecG726_40.cxx:109-131 | The shifts and masks of the encoder assemble exactly that number |
| `G726At40.PackedGroup5` | libmedia/CodecG726_40.cxx:98-135 | Every group of eight codes, wherever it stands, makes five octets with the bits of the source's shifts and masks |
| `G726At40.TakenApartIsUnpacked5` | libmedia/CodecG726_40.cxx:153-184 | The shifts and masks of the decoder take exactly that number apart |
| `G726At40.UnpackedCodes5` | libmedia/CodecG726_40.cxx:139-187 | Every group of five octets, wherever it stands, gives eight codes with those bits |
| `G726At40.CodecG726_40.Encode` | libmedia/CodecG726_40.cxx:88-135 | For every coder and every multiple of 8 samples: the packing of the codes emitted in order, 5/8 of the samples long; the error answers otherwise |
| `G726At40.CodecG726_40.Decode` | libmedia/CodecG726_40.cxx:139-187 | Hands its decoder the unpacked codes in order; the error answers otherwise |
| `G726At40.DecoderHearsCodes` | libmedia/CodecG726_40.cxx:88-187 | Decoding hears exactly the codes that encoding emitted; eight samples take five octets |
| `G726At24.CodesOfWord3` | libmedia/CodecG726_24.cxx:98-127 | Eight codes of three bits are the digits of one 24-bit number |
| `G726At24.UnpackUndoesPack3` | libmedia/CodecG726_24.cxx:98-172 | Unpacking gives back the codes packed |
| `G726At24.PackUndoesUnpack3` | libmedia/CodecG726_24.cxx:98-172 | Every octet string of whole groups is the packing of its codes |
| `G726At24.AssembledIsPacked3` | libmedia/CodecG726_24.cxx:102-123 | The shifts and masks of the encoder assemble exactly that number |
| `G726At24.PackedGroup3` | libmedia/CodecG726_24.cxx:98-127 | Every group of eight codes, wherever it stands, makes three octets with the bits of the source's shifts and masks |
| `G726At24.TakenApartIsUnpacked3` | libmedia/CodecG726_24.cxx:148-170 | The shifts and masks of the decoder take exactly that number apart |
| `G726At24.UnpackedCodes3` | libmedia/CodecG726_24.cxx:131-172 | Every group of three octets, wherever it stands, gives eight codes with those bits |
| `G726At24.CodecG726_24.Encode` | libmedia/CodecG726_24.cxx:88-127 | For every coder and every multiple of 8 samples: the packing of the codes emitted in order, 3/8 of the samples long; the error answers otherwise |
| `G726At24.CodecG726_24.Decode` | libmedia/CodecG726_24.cxx:131-172 | Hands its decoder the unpacked codes in order; the error answers otherwise |
| `G726At24.DecoderHearsCodes` | libmedia/CodecG726_24.cxx:88-172 | Decoding hears exactly the codes that encoding emitted; eight samples take three octets |
| `Base64.AlphabetIsExact` | util/Base64.cxx:68-91 | The two tables are inverse to each other, and no character of the alphabet is NUL, a line end or = |
| `Base64.AlphabetIsInOrder` | util/Base64.cxx:68-91 | The alphabet is that of section 4 of RFC 4648: A to Z, a to z, 0 to 9, + and /, in this order |
| `Base64.EncodedAt` | util/Base64.cxx:94-152 | The four characters of every group, wherever it stands: the bits of its octets, and = for those it does not have |
| `Base64.OctetsAre` | util/Base64.cxx:163-195 | The one, two or three octets that four characters stand for, by the bits of their values |
| `Base64.BreakIsOptional` | util/Base64.cxx:187-193 | A line end behind a group is CR LF or CR alone; without it nothing is left out, not even LF |
| `Base64.GroupAsCoded` | util/Base64.cxx:112-143 | The encoder's shifts give the sextets of the 24-bit number of section 4 of RFC 4648 |
| `Base64.GroupComesBack` | util/Base64.cxx:163-195 | The decoder's shifts put the three octets together again |
| `Base64.EncodedShows` | util/Base64.cxx:94-152 | No NUL in the output, so that strlen is right; = exactly as the last characters of an incomplete group |
| `Base64.Encode` | util/Base64.cxx:94-152 | Writes the encoding of every octet string, 4 ceil(n/3) characters and a NUL, and returns that length |
| `Base64.Decode` | util/Base64.cxx:155-201 | Writes what the input stands for, or finds that it has no NUL to stop at |
| `Base64.DecodeUndoesEncode` | util/Base64.cxx:94-201 | Decoding undoes encoding for every octet string, whatever follows the NUL |
| `Base64.LinesDoNotMatter` | util/Base64.cxx:187-193 | Ending a line after any number of whole groups changes nothing |
| `StunRoundTrip.AttributeStep` | stund/stun.cxx:208-371 | An attribute in front of the rest is parsed, and then the rest is |
| `StunRoundTrip.AddressComesBack` | stund/stun.cxx:41-68 | The octets written for an address parse as that address, its family IPv4 |
| `StunRoundTrip.PiecesFrom` | stund/stun.cxx:471-551 | The attributes written one after the other are read one after the other |
| `StunRoundTrip.ParseUndoesEncode` | stund/stun.cxx:173-551 | Without error code and unknown attributes: encoding and then parsing recovers every field, and the hash under a password; the header length is the total minus 20 |
| `StunRoundTrip.UnknownComesBack` | stund/stun.cxx:114-131 | A list of unknown attributes is read back from its octets if and only if it is empty |
| `StunRoundTrip.BothDoNotComeBack` | stund/stun.cxx:173-551 | With both, whatever parses is not the message encoded |
| `StunRoundTrip.RoundTripIsExact` | stund/stun.cxx:173-551 | Encoding and then parsing recovers a message, hash included, if and only if it has neither error code nor unknown attributes |
| `StunRoundTrip.OverlongDoesNotComeBack` | stund/stun.cxx:426-447 | With exactly one of error code and unknown attributes, whatever else there is, what is encoded never parses: their length fields claim two octets too many |
| `StunOutcomes.ParsedIsExact` | stund/stun.cxx:173-376 | A message is read exactly when its length field is right and the octets behind the header are attributes of the right sizes, one after the other |
| `StunFormat.AttributeSets` | stund/stun.cxx:212-364 | An attribute of type 1 to 11 sets the field of that type in section 11.2 of RFC 3489 to its value, read field by field, and no other field |
| `StunFormat.ReadByType` | stund/stun.cxx:173-376 | Each field of a message read is the value of the last attribute of its type, 1 for the mapped address to 11 for reflected-from, and none if there is none |
| `StunOutcomes.UndefinedIsExact` | stund/stun.cxx:173-376 | A copy leaves its fields exactly when an error code of fewer than 4 octets, or of 260 or 261, follows attributes of the right sizes |
| `Stun.EncodeBody` | stund/stun.cxx:484-537 | Writes the attributes present, in order, behind the header |
| `StunFormat.MessageHasFormat` | stund/stun.cxx:471-551 | The octets written: type, length and id, then each field present under its type and length, in order, and under a password the hash over the message with a length of zero |
| `Stun.EncodeMessage` | stund/stun.cxx:471-551 | Writes the encoding: the hash covers a length of zero, the length is patched last |
| `Stun.ParseOne` | stund/stun.cxx:212-364 | Each case of the switch, with its checks; which field each type sets is StunFormat.AttributeSets |
| `Stun.ParseMessage` | stund/stun.cxx:173-376 | Ends on every input, with the message, a failure, or a copy outside its fields; the fields of the message are those of StunFormat.ReadByType |
| `PortAllocation.RunIsSafe` | libmedia/MediaController.cxx:260-314 | Over every sequence of creations and frees, live sessions have distinct ids and distinct ports of the list |
| `PortAllocation.CreateIsExact` | libmedia/MediaController.cxx:260-293 | A new session gets the first port of the list that no session holds and the probe does not find taken, under a new id; no id exactly when every port is held or taken; and nothing else changes |
| `PortAllocation.PairsAreDisjoint` | libmedia/MediaController.cxx:111-127 | Their pairs {p, p + 1} are disjoint |
| `PortAllocation.IdsIncrease` | libmedia/MediaController.cxx:260-264 | A session created later has a larger id, whatever was freed in between |
| `PortAllocation.CreateFailsWhenFull` | libmedia/MediaController.cxx:269-289 | Creation fails exactly when every port is held or taken |
| `PortAllocation.FreeUndoesCreate` | libmedia/MediaController.cxx:260-314 | Freeing a session just created restores everything but the id |
| `PortAllocation.FreedIsAvailable` | libmedia/MediaController.cxx:296-314 | The port of a freed session is available again: the next creation takes it or one before it |
| `MediaSessions.MediaSession.constructor` | libmedia/MediaSession.cxx:76-102 | Marks its resource busy and owned |
| `MediaSessions.MediaSession.TearDown` | libmedia/MediaSession.cxx:313-342 | Marks its resource not busy |
| `MediaSessions.MediaSession.Destroy` | libmedia/MediaSession.cxx:105-116 | Leaves its resource free and without owner |
| `MediaSessions.MediaController.constructor` | libmedia/MediaController.cxx:111-127 | Every second port from the least on that the probe does not find taken, and no session |
| `MediaSessions.MediaController.BusyIsHeld` | libmedia/MediaController.cxx:269-289 | A resource is marked busy exactly when a session holds its port |
| `MediaSessions.MediaController.StateIsSafe` | libmedia/MediaController.cxx:260-314 | What the lists and the map stand for is safe |
| `MediaSessions.MediaController.CreateSession` | libmedia/MediaController.cxx:260-293 | The port handed out is in the list, held by no session before and not found taken, and every one before it is held or taken; none exactly when all are; the state afterwards is the allocator's |
| `MediaSessions.MediaController.FreeSession` | libmedia/MediaController.cxx:296-314 | The state afterwards is the allocator's; an unknown id changes nothing |

## Left out

- I/O: sockets, clocks, logging, LANforge callbacks, packet printing. Arrivals, clock
  readings, port probes and random seeds are parameters.
- MD5 and HMAC-SHA1 are functions with 16 and 20 octets of result; the G.726 coder is any
  function with a state that emits codes of the right width.
- `RtpData` objects are values in the cells of the ring, not heap objects; the payload of
  a silence slot and the stale payload a reused slot carries are not modelled.
- SSRC probation, comfort noise, DTMF events, format and sample-size changes in the middle
  of a run: they break the uniform stream.
- The marker bit, the byte order conversion of RTP headers and L16 samples.
- JitterRuns.EndToEnd: covers one busy period, from the packet that finds the ring empty to
  the next event that finds it empty or clears it; the next period starts afresh.
- ReceiverStatistics.SourceFigures.UpdateCycles: `recv_cycles` is unsigned 32 bits wide, so
  the index is recovered modulo 2^48.
- `calcLostFrac`, `calcLostCount`, the delays in report blocks and the delay averages of
  `readSR`: the values of a report block are inputs of the builder, and the walker says
  which are read.
- RtcpArena.RtcpPacket.AllocData: says nothing of the octets once it has failed; the
  original aborts, or has written behind its array.
- Stored description texts (`addSDESItem` copies one octet too many), APP blocks (an
  assertion fails), `receiveRTCP` beyond the check and the walk.
- RadiusBuffer.RadiusMessage.CalcAuthenticator: says nothing of the message once an address
  or a password has overrun its buffer.
- RadiusHiding.HidingIsExact: is for bodies that fit a packet, as every list that `Add`
  has built does; one hash can hide a list right by chance that does not line up.
- RadiusBuffer.RadiusMessage.CalcAccountingRequestAuthenticator: asks for room for the
  secret behind the packet, where the original fails an assertion.
- RadiusBuffer.RadiusMessage.CalcResponseAuthenticator: asks for the same room.
- RADIUS attribute lookup by `getAll`, printing, and packets larger than the buffer.
- NtpTime minus milliseconds: it does not saturate cleanly when the seconds run out.
- CodecG726_16 and CodecG726_32: the same scheme without codes across octet boundaries.
- Sample counts that are no multiple of 8, and encoded lengths that are no multiple of 5 or
  3 octets: the original reads behind its input.
- Base64.Decode: asks for room for the octets it writes, which the original does not
  check; `inputLen` is ignored as in the original.
- stunNatType: its classification depends on timing.
- MediaSessions.MediaController.FreeSession: the session object is destroyed at the free;
  a session that someone else still refers to would release its resource a second time,
  later.
- MediaSessions.MediaController.CreateSession: where no resource is free the original fails
  an assertion; the model returns no id. The session id is an unbounded integer.
- Media devices, RTP sessions inside a media session, codec lists and SDP.
