# Verified models of NFD's link service, stream framing and forwarding pipelines

NFD is the forwarding daemon of Named Data Networking. This project models three of its parts in Dafny and proves
what they keep in every run.

**The NDNLPv2 link service.** A network packet is split into fragments, the fragments get a 64-bit Sequence that
wraps around, and the reliability layer numbers every transmission again with a TxSequence, keeps unacknowledged
transmissions in a window that may wrap around the end of the map, infers losses from later Acks, retransmits a
bounded number of times and queues Acks to piggyback. The peer reassembles. `Sequence64` is the cyclic arithmetic,
`LpPacket` the packet and its encoded size, `SendWindow` the sender's steps as functions on a value `TxState`,
`SendWindowLaws`, `AckProcessing`, `Accounting`, `Transmissions` and `Ledger` what each step keeps, `SenderRuns` whole
runs of a sender, `AckQueue` the Ack side, `Peers` and `Duplicates` two endpoints over an unreliable link. The class in
`LpReliability` does the same steps in place, with the loops of the C++ code, and each method is proved equal to the
function. `LpFragmenter`, `LpReassembler` and `RoundTrip` do the same for splitting and joining, and
`GenericLinkService` is the path that ties them together. `LinkRuns` puts two whole link services at the ends of the
unreliable link, drop timers of the reassemblers included, and carries a network packet from one sendNetPacket to the
other reassembler; `LateFragment` is a run of it in which something expected does not hold.

**Stream framing.** `StreamTransport` cuts a byte stream, received in chunks into a fixed array, into elements.

**The forwarding pipelines.** `Pit` has faces, packets and PIT entries, `RetxSuppression` and `BestRoute` the strategy's
decisions, `Forwarding` the pipelines as steps of a state machine over events, `Forwarder` the object whose methods
perform them in place. `FlowBalance`, `PitLifetime`, `OutRecords`, `Spacing`, `NackAggregation`, `RoundRobin` and
`RoundRobinRuns` are what holds in every run, `InterestLog` has the views of the list of Interests sent that they use,
and `Stories` has two runs in which something expected does not hold. Some fields of the model are history that the
program does not keep: what was sent and Nacked on an out-record, the last transmission of an entry, the list of
Interests sent, and counts of what was received and inserted. `OutRecords` proves that the first three agree with one
another and with the packets each face was given.

Inputs of the model rather than parts of it: clock readings and RTO estimates, when timers fire, what the Content
Store finds, the next hops the FIB returns, which PIT entries match a Data packet, which nonces the Dead Nonce List
forgets, and what the link loses, duplicates, reorders or marks. One clock reading is taken per event. Where the
order of clock readings matters, the clock is taken not to go back.

## Where the code does not do what is said of it

- Throwing on a full window breaks the window: `assignTxSequence` advances `m_lastTxSeqNo` before it throws, so that
  from then on the check for an outstanding number misses (`SendWindowLaws.ThrowBreaksWindow`, with the exact case).
  Runs therefore end at such an exception.
- The room kept for Acks is computed from the size of the whole packet instead of its TLV-VALUE: `AckQueue.PiggybackFits`
  gives the exact condition under which a packet ends up over the MTU, by at most 2 octets.
- A congestion mark is added after Acks may have used the room set aside for it. `GenericLinkService.MarkedFits` gives
  the exact condition under which the packet still fits, `GenericLinkService.MarkAfterAcksOvershoots` a packet that
  does not.
- An MTU of 0 is announced as allowed, but the assertion in `sendNetPacket` fails for it and for most MTUs below the room
  set aside; the others pass for unlimited (`GenericLinkService.AssertionHoldsIff`), and then nothing that is sent on a
  reliable link fits (`GenericLinkService.AliasedReserveNeverFits`).
- The out-record's documentation says that the outgoing Interest pipeline clears its Nack. The pipeline does not: a
  recorded Nack is out of date exactly if the Interest was sent again after it (`NackAggregation.StaleNackIff`). Then a
  downstream may be told although an upstream still owes an answer, exactly in that case
  (`NackAggregation.ToldEarlyIff`); `Stories.ToldTooEarly` is a run that gets there.
- Retransmissions are spaced from the latest out-record that is left, not from the last transmission. The two differ
  when the out-record of the last transmission was deleted by Data or with its face (`Spacing.SpacedIff`, with the exact
  case); `Stories.SentAgainTooSoon` is a run that gets there.
- A counter says acknowledged, the packet was not delivered: fragments are acknowledged as they arrive, and the
  reassembler may drop what it holds of a message while its last fragment is on the way. A network packet has been
  delivered iff there is a stretch without a drop of it in which all its fragments passed duplicate detection
  (`LinkRuns.DeliveredIffGotThrough`); for a counted packet that is the case at least if it was never dropped
  (`LinkRuns.CountedIsDelivered`). `LateFragment.CountedAndNotDelivered` is a run that counts a packet and delivers
  nothing.
- The reassembler forgets a message once it is complete: it is delivered once for every time its fragments have all
  arrived (`RoundTrip.ReassemblyCountsRounds`), so exactly once iff what comes after the first time does not make up the
  whole message again (`RoundTrip.DeliveredOnceIff`). Holding copies back is left to duplicate detection.
- Duplicate detection does not remember a Sequence for one RTO. What is forgotten is decided whenever a numbered
  fragment arrives, with the RTO of that moment, and from the head of the queue, so that a young head keeps what is
  behind it: a copy passes as new iff an eviction since the last copy has reached its Sequence
  (`Duplicates.CopyPassesIff`). A copy keeps the time of the one before, unless the eviction at its own arrival reaches
  it; then it is dropped as a duplicate and renews the time (`Duplicates.RememberIff`, `Duplicates.SecondCopyRenewsIff`).
- An IDLE packet takes an Ack off the queue exactly if the MTU is unlimited or at least 16
  (`AckQueue.IdlePacketTakesAck`); below that the loop on the idle timer would not end.

## Model

| member | source | states |
|---|---|---|
| Sequence64.Nearest | daemon/face/lp-reliability.cpp:389-408 | the element at the least cyclic distance from a number, as the window's next start |
| Sequence64.WrappedSuccessorIsNearest | daemon/face/lp-reliability.cpp:394-404 | the next iterator, or begin() if that is end(), is the cyclically nearest key |
| SendWindowLaws.ThrowsIffOutstanding | daemon/face/lp-reliability.cpp:224-233 | under the window invariant assignTxSequence throws exactly if the next number is outstanding |
| SendWindowLaws.ThrowBreaksWindow | daemon/face/lp-reliability.cpp:227-232 | after a throw the window invariant holds iff the window held only its first number, and the next call does not throw |
| SendWindowLaws.ThrowBreaksWindowExample | daemon/face/lp-reliability.cpp:227-232 | a state with all invariants in which the call after a throw hands out an outstanding number |
| SendWindowLaws.InsertKeepsWindow | daemon/face/lp-reliability.cpp:79-99 | storing the next number keeps the start oldest and all keys between it and the last number |
| SendWindowLaws.DeleteKeepsWindow | daemon/face/lp-reliability.cpp:389-408 | erasing any number keeps the window invariant |
| SendWindowLaws.DeleteAllKeepsWindow | daemon/face/lp-reliability.cpp:300-306 | so does erasing any set of them one after another |
| SendWindowLaws.ListIsExact | daemon/face/lp-reliability.cpp:95-102 | a packet's list is exactly the window's entries that link back to it |
| SendWindowLaws.HandleOutgoingKeepsInv | daemon/face/lp-reliability.cpp:64-104 | sending succeeds iff enough numbers are free, and then keeps the window and the two-way links and adds one outstanding packet |
| SendWindowLaws.AcknowledgedKeepsInv | daemon/face/lp-reliability.cpp:365-387 | acknowledging keeps them, and completes a packet exactly with its last fragment |
| SendWindowLaws.GiveUpRemoves | daemon/face/lp-reliability.cpp:297-322 | giving up erases exactly the fragments of that packet |
| SendWindowLaws.GiveUpKeepsInv | daemon/face/lp-reliability.cpp:297-322 | giving up keeps the invariant and ends exactly that packet |
| SendWindowLaws.RetransmitWindow | daemon/face/lp-reliability.cpp:324-346 | retransmitting replaces one number by the next free one, at the end of the window |
| SendWindowLaws.RetransmitKeepsInv | daemon/face/lp-reliability.cpp:324-362 | retransmitting keeps the window, the two-way links and the set of outstanding packets |
| SendWindowLaws.BumpKeepsInv | daemon/face/lp-reliability.cpp:250-275 | counting greater Acks changes nothing else |
| AckProcessing.FindLostExact | daemon/face/lp-reliability.cpp:250-275 | the scan reports exactly the fragments older than the acknowledged one whose count reaches the threshold |
| AckProcessing.LostKeepsInv | daemon/face/lp-reliability.cpp:277-363 | a loss fails iff it must retransmit and no number is free; otherwise the invariant stays and every fragment is still outstanding or reported as removed |
| AckProcessing.AbsorbKeepsInv | daemon/face/lp-reliability.cpp:139-146 | so does taking in one Ack, and everything reported lost is still outstanding after it |
| AckProcessing.LoseAllKeepsInv | daemon/face/lp-reliability.cpp:148-162 | the loop over the losses keeps the invariant: each number is outstanding or was reported as removed when its turn comes |
| AckProcessing.ProcessAckKeepsInv | daemon/face/lp-reliability.cpp:115-163 | processing an Ack, known or unknown, keeps the invariant |
| AckProcessing.ProcessAckBelow | daemon/face/lp-reliability.cpp:115-163 | after each Ack no outstanding fragment has a count at or above a threshold of at least 1 |
| Accounting.HandleOutgoingSound | daemon/face/lp-reliability.cpp:64-104 | sending keeps: packets given = acknowledged + retransmitted + exhausted + outstanding |
| Accounting.AbsorbSound | daemon/face/lp-reliability.cpp:365-387 | an Ack keeps that equation and the retransmission bound |
| Accounting.LostSound | daemon/face/lp-reliability.cpp:277-363 | a loss keeps them |
| Accounting.ProcessAckSound | daemon/face/lp-reliability.cpp:115-163 | so does a whole Ack; if it was for an outstanding fragment, the drain measure falls |
| Accounting.AbsorbSpends | daemon/face/lp-reliability.cpp:365-408 | a matching Ack lowers the sum of (maxRetx + 1 - retxCount) over outstanding fragments |
| Accounting.LostSpends | daemon/face/lp-reliability.cpp:277-363 | so does every loss |
| Accounting.BudgetZero | daemon/face/lp-reliability.cpp:277-408 | the measure is zero exactly if nothing is outstanding |
| Transmissions.HandleOutgoingTraced | daemon/face/lp-reliability.cpp:64-104 | sending keeps: an outstanding fragment was transmitted retxCount + 1 times, any fragment at most maxRetx + 1 times |
| Transmissions.ProcessAckTraced | daemon/face/lp-reliability.cpp:115-163 | so does processing an Ack, with all retransmissions it causes |
| SenderRuns.RunsAreGood | daemon/face/lp-reliability.cpp:64-408 | in every run of sends, Acks and timeouts: invariant, conservation, retransmission bound and threshold hold |
| SenderRuns.DrainsWithinBudget | daemon/face/lp-reliability.cpp:277-408 | in any run without new packets, unmatched Acks included: matching Acks and losses number at most the initial measure, and once they number as many the window is empty |
| SenderRuns.ProgressIsPossible | daemon/face/lp-reliability.cpp:277-363 | while something is outstanding its timer is pending and its expiry makes progress |
| Ledger.NumbersRemain | daemon/face/lp-reliability.cpp:224-233 | with n transmissions at least 2^64 - n numbers are free |
| Ledger.AcknowledgedBook | daemon/face/lp-reliability.cpp:365-387 | a packet counted on its last Ack has had every fragment received, if Acks are honest |
| Ledger.LostBook | daemon/face/lp-reliability.cpp:277-363 | losses keep the record of what is still owed |
| Ledger.ProcessAcksBook | daemon/face/lp-reliability.cpp:115-163 | so do all Acks of a packet |
| Ledger.HandleOutgoingBook | daemon/face/lp-reliability.cpp:64-104 | so does sending |
| AckQueue.SendKeepsAckStream | daemon/face/lp-reliability.cpp:192-222 | attaching moves Acks from the head of the queue without losing, reordering or repeating one |
| AckQueue.IdlePacketTakesAck | daemon/face/lp-reliability.cpp:235-248 | an IDLE packet shortens the queue iff the MTU is unlimited or at least 16 |
| AckQueue.FlushEmptiesQueue | daemon/face/lp-reliability.cpp:235-248 | then the idle loop ends with an empty queue and all Acks attached in order |
| AckQueue.PiggybackFits | daemon/face/lp-reliability.cpp:198-221 | with Acks a packet exceeds the MTU by at most 2, and exactly in the stated case of a 251 or 252 octet value |
| GenericLinkService.PiggybackOvershootExample | daemon/face/lp-reliability.cpp:198-221 | a packet that the fragmenter leaves whole at MTU 277 and that two Acks take to 279 octets |
| AckQueue.RememberSound | daemon/face/lp-reliability.cpp:171-183 | only received Sequences are remembered, and the latest one is |
| Peers.StepKeepsLocal | daemon/face/lp-reliability.cpp:64-248 | whatever arrives: Acks attached so far followed by the queue are the received TxSequences in order; a non-empty queue has a pending idle timer |
| Peers.RunsAreSafe | daemon/face/lp-reliability.cpp:64-408 | in every run of two peers over a link that loses, duplicates, reorders and marks, both keep their invariants and each one's books are true of the other |
| Peers.DeliveredMeansReceived | daemon/face/lp-reliability.cpp:64-387 | within 2^64 transmissions, a packet counted in nAcknowledged or nRetransmitted has had every fragment received by the peer |
| Duplicates.StepKeepsHonest | daemon/face/lp-reliability.cpp:165-189 | every step keeps the memory of received Sequences true |
| Duplicates.OnlyDuplicatesAreDropped | daemon/face/lp-reliability.cpp:171-189 | in every run, at either endpoint, a packet reported as a duplicate has a Sequence received before |
| Duplicates.EvictOnlyRemoves | daemon/face/lp-reliability.cpp:177-181 | entries that operator[] inserts never survive the eviction loop |
| Duplicates.EvictedIff | daemon/face/lp-reliability.cpp:177-181 | a remembered Sequence is evicted iff everything remembered up to one of its places in the queue is older than the RTO |
| Duplicates.RememberIff | daemon/face/lp-reliability.cpp:171-183 | exactly which Sequences are in memory after a fragment, and with which time: that of the copy before, or renewed if the eviction reached it |
| Duplicates.RememberedIff | daemon/face/lp-reliability.cpp:165-189 | in every run a Sequence is still remembered iff no eviction since its last copy has reached it, and with which time |
| Duplicates.CopyPassesIff | daemon/face/lp-reliability.cpp:165-189 | in every run a copy is reported as new iff an eviction since the last copy before it has reached its Sequence |
| Duplicates.CopyWithinRtoIsDropped | daemon/face/lp-reliability.cpp:165-189 | in particular a copy of a fragment that was new is reported as a duplicate as long as the numbered fragments received since come within one RTO, as it is when they come, of it |
| Duplicates.SecondCopyRenewsIff | daemon/face/lp-reliability.cpp:171-183 | for all times and RTOs: a second copy prolongs the memory of its Sequence iff it comes more than one RTO after the first |
| LinkRuns.PreparedIsMessage | daemon/face/generic-link-service.cpp:187-234 | what sendNetPacket fragments and numbers is the message the round trip is about |
| LinkRuns.NumberedAreDistinct | daemon/face/generic-link-service.cpp:146-152 | assignSequences gives the reliability layer distinct Sequences on fragments without Acks |
| LinkRuns.SequenceIdentifies | daemon/face/generic-link-service.cpp:146-152 | within 2^64 fragments a Sequence belongs to one fragment of one packet |
| LinkRuns.ValidIsFair | daemon/face/lp-reassembler.cpp:83-91 | so message identifiers in flight never clash, whatever arrives |
| LinkRuns.RunsFlow | daemon/face/generic-link-service.cpp:187-327 | in every run of two link services, drop timers included, each reassembler has been through the fragments that passed duplicate detection and the drops, its state and deliveries are explained by what the peer sent, and every Sequence received has passed once |
| LinkRuns.DeliveredIffGotThrough | daemon/face/lp-reassembler.cpp:43-156 | in every run, within 2^64 transmissions, a network packet has been delivered by the peer, with its payload and headers, iff there is a stretch without a drop of it in which all its fragments passed duplicate detection; and how often |
| LinkRuns.CountedIsDelivered | daemon/face/generic-link-service.cpp:187-327 | in every run, within 2^64 transmissions, all fragments of a packet counted in nAcknowledged or nRetransmitted have passed duplicate detection at the peer, and it has been delivered if it was not dropped there |
| LateFragment.CountedAndNotDelivered | daemon/face/lp-reassembler.cpp:116-117 | a run from a new link, for every packet of 100 octets, that counts the packet in nAcknowledged and delivers nothing |
| LinkRuns.DroppedIsACopy | daemon/face/generic-link-service.cpp:296-302 | in every run, within 2^64 transmissions, a packet dropped as a duplicate is a copy of a fragment the reassembler was given |
| LpReliability.LpReliability.constructor | daemon/face/lp-reliability.cpp:36-44 | nothing outstanding, TxSequence starting before 0 |
| LpReliability.LpReliability.AssignTxSequence | daemon/face/lp-reliability.cpp:224-233 | the fragment gets the next number; failure iff that number is outstanding |
| LpReliability.LpReliability.DeleteUnackedFrag | daemon/face/lp-reliability.cpp:389-408 | erasing by iterators is erasing on the cyclic window |
| LpReliability.LpReliability.FindLostLpPackets | daemon/face/lp-reliability.cpp:250-275 | the wrapping scan ends, bumps exactly the older fragments and returns the lost ones in order |
| LpReliability.LpReliability.OnLpPacketAcknowledged | daemon/face/lp-reliability.cpp:365-387 | does the acknowledgement step in place |
| LpReliability.LpReliability.OnLpPacketLost | daemon/face/lp-reliability.cpp:277-363 | does the loss step in place and returns the removed numbers |
| LpReliability.LpReliability.DropNetPkt | daemon/face/lp-reliability.cpp:297-322 | the give-up loop erases the packet's fragments, the lost one last |
| LpReliability.LpReliability.Resend | daemon/face/lp-reliability.cpp:324-362 | stores the fragment under its new number, replaces it in the packet's list, sends it |
| LpReliability.LpReliability.Piggyback | daemon/face/lp-reliability.cpp:192-222 | the loop attaches exactly the Acks that fit, from the head |
| LpReliability.LpReliability.SendLpPacket | daemon/face/generic-link-service.cpp:93-113 | hands over the packet with its Acks |
| LpReliability.LpReliability.IdleAckTimerExpires | daemon/face/lp-reliability.cpp:235-248 | the loop ends iff nothing is queued or the MTU is unlimited or at least 16, and then leaves the queue empty |
| LpReliability.LpReliability.StoreFrag | daemon/face/lp-reliability.cpp:75-103 | one iteration of handleOutgoing |
| LpReliability.LpReliability.HandleOutgoing | daemon/face/lp-reliability.cpp:64-104 | numbers and stores all fragments, or stops where the numbers are exhausted |
| LpReliability.LpReliability.ProcessAck | daemon/face/lp-reliability.cpp:115-163 | one iteration over the Acks |
| LpReliability.LpReliability.LoseAllOf | daemon/face/lp-reliability.cpp:148-162 | resends or fails the lost fragments that are still there |
| LpReliability.LpReliability.EvictOld | daemon/face/lp-reliability.cpp:177-181 | the eviction loop, with operator[] inserting missing keys |
| LpReliability.LpReliability.ProcessAcksOf | daemon/face/lp-reliability.cpp:114-163 | the loop over all Acks of a packet, with everything it retransmits |
| LpReliability.LpReliability.ProcessIncomingPacket | daemon/face/lp-reliability.cpp:106-190 | Acks, then the fragment's own TxSequence and Sequence |
| LpFragmenter.SlowPathHasRest | daemon/face/lp-fragmenter.cpp:107-115 | on the slow path the first fragment carries at least one octet and not everything |
| LpFragmenter.PayloadsPartition | daemon/face/lp-fragmenter.cpp:107-140 | the payloads concatenate to the packet; at least 2, each non-empty, as many as computed in advance, each with its overhead within the MTU |
| LpFragmenter.FragmentPacket | daemon/face/lp-fragmenter.cpp:78-143 | the loop produces those fragments in order, or reports MTU too small or too many fragments |
| LpFragmenter.FragmentsFit | daemon/face/lp-fragmenter.cpp:85-134 | a fragment with its Sequence and, where room was set aside, TxSequence and CongestionMark fits the MTU |
| LpReassembler.DoReassembly | daemon/face/lp-reassembler.cpp:122-144 | copying the slots into one buffer yields their concatenation |
| LpReassembler.LpReassembler.ReceiveFragment | daemon/face/lp-reassembler.cpp:43-119 | the slot is filled, ignored or completed as the reassembly function says, including every drop |
| LpReassembler.LpReassembler.TimeoutPartialPacket | daemon/face/lp-reassembler.cpp:146-156 | drops exactly that partial packet and reports how many fragments it had |
| LpReassembler.ReceiveKeepsSound | daemon/face/lp-reassembler.cpp:50-119 | for any packet: counts equal filled slots, slot j holds Sequence id + j of one endpoint and count, a timer is set, and a delivery is slots 0..n-1 in order |
| LpReassembler.RunAll | daemon/face/lp-reassembler.cpp:43-156 | that holds after every run of arbitrary arrivals and timeouts |
| RoundTrip.ArrivalKeepsMirror | daemon/face/lp-reassembler.cpp:50-119 | the reassembler's state mirrors which fragments of which message have come |
| RoundTrip.DropKeepsMirror | daemon/face/lp-reassembler.cpp:146-156 | a drop timer takes away exactly what is held of its message |
| RoundTrip.ReassemblyCountsRounds | daemon/face/lp-reassembler.cpp:43-156 | for any order, interleaving and duplication, late copies and drops included, each message is delivered once for every time its fragments have all arrived since it was last complete or dropped, and nothing else is |
| RoundTrip.RoundIffStretch | daemon/face/lp-reassembler.cpp:43-156 | that happens at all iff in some stretch without a drop of the message all its fragments arrive |
| RoundTrip.NoDropNeedsAll | daemon/face/lp-reassembler.cpp:43-144 | without a drop of it, iff all its fragments arrive |
| RoundTrip.DeliveredOnceIff | daemon/face/lp-reassembler.cpp:43-156 | a message is delivered exactly once iff there is such a stretch and what comes after the first one has none |
| RoundTrip.ReassemblyIsExact | daemon/face/lp-reassembler.cpp:43-156 | without copies of messages that could be delivered, those messages are delivered, each exactly once |
| RoundTrip.MessageIsFaithful | daemon/face/lp-fragmenter.cpp:78-143 | numbered fragments of a packet form a well-formed message with its payload and headers, also when Sequence wraps |
| RoundTrip.FragmentationIsIdentity | daemon/face/generic-link-service.cpp:187-243 | fragmenting, numbering and reassembling delivers a packet iff all its fragments arrived in a stretch in which it was not dropped, once per round, always with its payload and headers |
| RoundTrip.LateCopyIsDeliveredAgain | daemon/face/lp-reassembler.cpp:108-114 | for every message, all fragments arriving again deliver it again; one late copy does so only if it is the whole message |
| GenericLinkService.SingleFragmentIsWhole | daemon/face/generic-link-service.cpp:205-228 | a single fragment is the packet itself, without fragmentation fields |
| GenericLinkService.PreparedFits | daemon/face/generic-link-service.cpp:191-213 | every fragment with its Sequence, TxSequence and mark fits the MTU |
| GenericLinkService.AssertionHoldsIff | daemon/face/generic-link-service.cpp:191-203 | the MTUs for which the assertion holds, and those for which the room left passes for unlimited |
| GenericLinkService.AliasedReserveNeverFits | daemon/face/generic-link-service.cpp:193-221 | in the latter case a reliable link does not fragment and what it sends exceeds the MTU |
| GenericLinkService.MarkedFits | daemon/face/generic-link-service.cpp:93-113 | exactly when a packet fits after Acks and then a mark are added, whether or not it had a mark |
| GenericLinkService.MarkAfterAcksOvershoots | daemon/face/generic-link-service.cpp:98-104 | a packet the fragmenter leaves whole that fits with its mark and with its Acks, but not with both |
| GenericLinkService.GenericLinkService.constructor | daemon/face/generic-link-service.cpp:42-54 | Sequence starts two before the wrap |
| GenericLinkService.GenericLinkService.AssignSequences | daemon/face/generic-link-service.cpp:146-152 | consecutive numbers modulo 2^64 |
| GenericLinkService.GenericLinkService.SendNetPacket | daemon/face/generic-link-service.cpp:187-243 | failed assertion, drop, or fragments numbered where needed and sent or tracked, for every MTU |
| GenericLinkService.GenericLinkService.DoReceivePacket | daemon/face/generic-link-service.cpp:290-327 | what reaches the reassembler, and that the reliability layer sees every packet |
| StreamTransport.TlvIsStable | daemon/face/stream-transport.hpp:250-253 | an element with a valid TLV-TYPE that parses from the received bytes parses the same when more follow |
| StreamTransport.GreedyPartitions | daemon/face/stream-transport.hpp:249-259 | elements and rest are the stream, and the rest starts with no element |
| StreamTransport.GreedyResumes | daemon/face/stream-transport.hpp:249-276 | parsing can stop anywhere and resume from the rest |
| StreamTransport.FramingIgnoresChunking | daemon/face/stream-transport.hpp:225-279 | for every sequence of reads the elements are the greedy parse of all bytes, nothing is lost, FAILED iff the rest fills the buffer, else there is room |
| StreamTransport.SameBytesSameState | daemon/face/stream-transport.hpp:225-279 | two ways of receiving the same bytes end in the same state |
| StreamTransport.ElementsArriveIntact | daemon/face/stream-transport.hpp:225-279 | a peer that writes elements of acceptable size is never cut off, and what is delivered is a prefix of them, complete when all bytes are in |
| StreamTransport.StreamTransport.HandleReceive | daemon/face/stream-transport.hpp:236-279 | on the array: parse loop, failure test and moving the rest down |
| StreamTransport.StreamTransport.DeliverElements | daemon/face/stream-transport.hpp:247-259 | the loop delivers the greedy parse and stops at its rest |
| StreamTransport.StreamTransport.MoveDown | daemon/face/stream-transport.hpp:268-272 | the overlapping copy keeps the rest intact |
| Pit.LastExpiring | daemon/fw/forwarder.cpp:191-195 | the latest expiry of the in-records |
| Pit.LastOutgoing | daemon/fw/algorithm.cpp:118-129 | the latest renewal of the out-records |
| Pit.FindDuplicateNonce | daemon/fw/algorithm.cpp:77-105 | each flag is set iff a record on that side and face has the Nonce |
| Pit.NewEntryHasNoLoop | daemon/fw/forwarder.cpp:134-148 | a fresh entry cannot take the duplicate-Nonce exit |
| RetxSuppression.HasPendingOutRecords | daemon/fw/algorithm.cpp:107-116 | some out-record is unexpired and not Nacked |
| RetxSuppression.Grown | daemon/fw/retx-suppression-exponential.cpp:88-89 | the interval never shrinks and never exceeds the maximum, for any multiplier from 1 |
| RetxSuppression.DecidePerPitEntry | daemon/fw/retx-suppression-exponential.cpp:69-92 | the decision and the interval left behind |
| RetxSuppression.IntervalNeverDecreases | daemon/fw/retx-suppression-exponential.cpp:86-90 | over an entry's life the interval only grows |
| RetxSuppression.IntervalDoubles | daemon/fw/retx-suppression-exponential.cpp:86-90 | with multiplier 2 it is min(initial * 2^k, max) after k FORWARD decisions |
| RetxSuppression.DecideIsPaced | daemon/fw/retx-suppression-exponential.cpp:69-92 | FORWARD iff pending and the interval for that many earlier FORWARDs has passed since the latest renewal among the out-records left |
| BestRoute.FindEligible | daemon/fw/best-route-strategy2.cpp:79-82 | the first eligible next hop |
| BestRoute.FindUnused | daemon/fw/best-route-strategy2.cpp:101-105 | the first eligible one without unexpired out-record |
| BestRoute.FindEarliest | daemon/fw/algorithm.cpp:131-151 | the first eligible one with the oldest out-record |
| BestRoute.ChooseNextHop | daemon/fw/best-route-strategy2.cpp:76-118 | the three searches in order; the assertion that every eligible next hop has an out-record holds |
| BestRoute.ChoiceIsEligible | daemon/fw/best-route-strategy2.cpp:64-124 | the choice is eligible, and missing only if no next hop is |
| RoundRobin.TakesTurns | daemon/fw/best-route-strategy2.cpp:64-124 | undisturbed, the k-th transmission goes to eligible next hop k modulo n |
| RoundRobin.TurnIsModulo | daemon/fw/best-route-strategy2.cpp:101-124 | the turn is the count of transmissions modulo the number of next hops |
| RoundRobin.ConsecutiveAreDistinct | daemon/fw/best-route-strategy2.cpp:64-124 | any n consecutive transmissions use n different next hops |
| RoundRobin.EligibleIsDistinct | daemon/fw/best-route-strategy2.cpp:74-82 | distinct next hops in the FIB give distinct eligible ones |
| RoundRobin.PipelineTakesTurn | daemon/fw/forwarder.cpp:181-219 | in the pipeline an Interest is suppressed or goes to exactly the next hop whose turn it is |
| RoundRobinRuns.TurnsInRuns | daemon/fw/forwarder.cpp:88-285 | in every run that leaves an entry to its own Interests, with arbitrary events on other entries, its j-th transmission goes to eligible next hop j modulo n |
| RoundRobinRuns.ConsecutiveInRuns | daemon/fw/forwarder.cpp:88-285 | in such a run any n consecutive transmissions use n different next hops |
| FlowBalance.IncomingInterestKeepsBalance | daemon/fw/forwarder.cpp:88-241 | loop Nack, cache hit, new and renewed in-record and NO_ROUTE Nack all stay within the Interest received |
| FlowBalance.IncomingDataKeepsBalance | daemon/fw/forwarder.cpp:287-383 | one or several matches: each Data sent uses up an in-record |
| FlowBalance.IncomingNackKeepsBalance | daemon/fw/forwarder.cpp:426-526 | each Nack sent uses up an in-record |
| FlowBalance.DataReachesPending | daemon/fw/forwarder.cpp:303-383 | however many entries match, every face waiting in one of them gets the Data exactly once, and no other face gets anything |
| FlowBalance.RunsAreBalanced | daemon/fw/forwarder.cpp:88-526 | in every run, per face: Data and Nacks sent plus live in-records never exceed Interests received |
| PitLifetime.IncomingInterestKeepsGood | daemon/fw/forwarder.cpp:134-241 | whatever exit an Interest takes, its entry ends with an expiry timer |
| PitLifetime.FinalizeKeepsGood | daemon/fw/forwarder.cpp:265-285 | finalizing counts the entry once and removes it |
| PitLifetime.RunsAreGood | daemon/fw/forwarder.cpp:88-582 | in every run: every entry has a pending timer, nSatisfied + nUnsatisfied + PIT size = entries inserted, and nothing under /localhost leaves a non-local face unless sent by NextHopFaceId |
| OutRecords.RecordsAreTrue | daemon/table/pit-entry.cpp:97-112 | in every run an out-record has the Nonce last sent and the Nack last accepted, and the last transmission is what its own record tells unless that was deleted |
| OutRecords.FacesShowTheLog | daemon/fw/forwarder.cpp:243-263 | in every run the Interests each face was given are those of the list of Interests sent, in order |
| OutRecords.RecordTellsTheLog | daemon/table/pit-entry.cpp:97-112 | in every run the Nonces an out-record tells are those of the Interests sent for its entry on its face since the record was made |
| OutRecords.LastSentTellsTheLog | daemon/fw/forwarder.cpp:243-263 | in every run the last transmission of an entry is the last Interest sent for it since the entry was made, and there is none iff none was sent |
| Spacing.SpacedIff | daemon/fw/retx-suppression-exponential.cpp:77-86 | transmissions are spaced by the interval exactly if the latest record left is of the last transmission, or nothing will be pending by then |
| Spacing.RetransmissionsAreSpaced | daemon/fw/best-route-strategy2.cpp:36-72 | in every run the k-th FORWARD needs min(10 ms * 2^(k-1), 250 ms) since the latest record left, which is the last transmission while its out-record is there |
| Stories.SentAgainTooSoon | daemon/fw/algorithm.cpp:118-129 | a run in which a removed face lets an Interest be sent again after half the interval |
| NackAggregation.LeastSevereIsMinimal | daemon/fw/process-nack-traits.cpp:38-56 | the reason sent was recorded and none recorded is less severe |
| NackAggregation.OtherNacksAreDropped | daemon/fw/forwarder.cpp:433-465 | a Nack on the wrong link type, without entry or out-record, or with another Nonce only counts |
| NackAggregation.LastNackAnswersAll | daemon/fw/process-nack-traits.cpp:78-83 | the last Nack sends exactly one Nack to every point-to-point downstream with a valid ID, which loses its in-record, and nothing to others |
| NackAggregation.EarlierNackWaits | daemon/fw/process-nack-traits.cpp:57-77 | before that, a Nack goes only to a sole un-Nacked upstream that is also a downstream |
| NackAggregation.StaleNackIff | daemon/table/pit-out-record.hpp:63-69 | in every run a recorded Nack does not answer the Interest last sent to that upstream exactly if that was sent after the Nack |
| NackAggregation.ToldEarlyIff | daemon/fw/process-nack-traits.cpp:38-83 | in every run, when a downstream is told, another upstream still owes an answer exactly if another upstream was sent an Interest after its Nack |
| Stories.ToldTooEarly | daemon/fw/process-nack-traits.cpp:78-83 | a run in which a downstream is told while an upstream still owes an answer |
| NackAggregation.NackedUpstreamStaysNacked | daemon/fw/algorithm.cpp:107-116 | with all upstreams Nacked, sending again leaves the entry NEW to suppression |
| Forwarder.Forwarder.OnOutgoingInterest | daemon/fw/forwarder.cpp:243-263 | hop-limit drop and its counter, or out-record, packet and counter |
| Forwarder.Forwarder.OnOutgoingData | daemon/fw/forwarder.cpp:400-424 | invalid face and scope drops, or packet and counter |
| Forwarder.Forwarder.OnOutgoingNack | daemon/fw/forwarder.cpp:483-526 | the three drops, or a Nack with the in-record's Nonce and the in-record erased |
| Forwarder.Forwarder.SetExpiryTimer | daemon/fw/forwarder.cpp:574-582 | the timer replaces the old one, never in the past |
| Forwarder.Forwarder.InsertDeadNonceList | daemon/fw/forwarder.cpp:584-614 | adds exactly the nonces of the out-records concerned, unless satisfied by Data that stays fresh |
| Forwarder.Forwarder.SendData | daemon/fw/strategy.cpp:215-237 | in-record deleted and Data sent |
| Forwarder.Forwarder.SendDataToAll | daemon/fw/strategy.cpp:239-260 | the two loops serve exactly the pending downstreams except the incoming face |
| Forwarder.Forwarder.SendNacks | daemon/fw/strategy.cpp:262-281 | the loop Nacks every downstream that is not excluded and that a Nack can reach |
| Forwarder.Forwarder.OnInterestLoop | daemon/fw/forwarder.cpp:161-179 | a DUPLICATE Nack on point-to-point faces only |
| Forwarder.Forwarder.OnContentStoreHit | daemon/fw/forwarder.cpp:221-241 | entry satisfied and due now, Data to the requester |
| Forwarder.Forwarder.OnContentStoreMiss | daemon/fw/forwarder.cpp:181-219 | in-record, timer at the last expiry in whole milliseconds, then next hop tag or strategy |
| Forwarder.Forwarder.AfterReceiveInterest | daemon/fw/best-route-strategy2.cpp:64-124 | suppression, choice, Interest or NO_ROUTE Nack with immediate expiry |
| Forwarder.Forwarder.OnIncomingInterest | daemon/fw/forwarder.cpp:88-159 | hop limit, scope, dead nonce, insertion, loop, Content Store |
| Forwarder.Forwarder.OnIncomingData | daemon/fw/forwarder.cpp:287-383 | scope, unsolicited, one match or several |
| Forwarder.Forwarder.SatisfyMatch | daemon/fw/forwarder.cpp:315-338 | the single-match branch |
| Forwarder.Forwarder.SatisfyMatches | daemon/fw/forwarder.cpp:341-382 | the branch for several matches: every pending downstream once |
| Forwarder.Forwarder.ClearMatches | daemon/fw/forwarder.cpp:344-371 | its first loop collects downstreams and clears the entries |
| Forwarder.Forwarder.OnIncomingNack | daemon/fw/forwarder.cpp:426-481 | records an accepted Nack, expires the entry if nothing is pending, aggregates |
| Forwarder.Forwarder.ProcessNack | daemon/fw/process-nack-traits.cpp:34-83 | the three outcomes of aggregation |
| Forwarder.Survey | daemon/fw/process-nack-traits.cpp:38-52 | the loop finds the number of un-Nacked upstreams, the only one if there is one, and the least severe reason |
| Forwarder.Forwarder.OnInterestFinalize | daemon/fw/forwarder.cpp:265-285 | dead nonces, counter, erasure |
| Forwarder.Forwarder.RemoveFace | daemon/table/cleanup.cpp:30-49 | the face's records vanish from every entry and its ID becomes invalid |

## Left out

- Shared ownership of NetPkt: packets are identified by a number into a map, which keeps every completed packet; freeing and aliasing of shared_ptr are not modelled.
- Ledger.AcknowledgedBook: Acks are assumed to be for transmissions the peer received; `Peers` discharges this for the two-peer system.
- Peers.DeliveredMeansReceived: runs do not continue after the exception thrown when the numbers are exhausted, and reliability stays enabled with fixed options.
- LpReliability.LpReliability.SendLpPacket: a packet that exceeds the MTU counts as handed over and then lost by the link.
- LpReliability.LpReliability.ProcessIncomingPacket: RTT measurement is not modelled; the RTO is an input.
- RoundTrip.FragmentationIsIdentity: message identifiers in flight at one endpoint are distinct; `LinkRuns` proves this for what a link service sends.
- LinkRuns.CountedIsDelivered: both ends use reliability and reassembly throughout, and the receiver's fragment limit is at least the sender's; a drop timer may expire at any time, not only after the reassembly timeout.
- GenericLinkService.GenericLinkService.SendNetPacket: without reliability the packets are handed to the transport as they are; the drop of those over the MTU and the congestion mark are not modelled.
- LpReliability.LpReliability.OnLpPacketLost: the signal about a dropped Interest is an outcome of the step function, not a call of the object.
- LpReliability.LpReliability.DropNetPkt: the same; its only receiver is the onDroppedInterest pipeline, which does nothing with best-route.
- LpReliability.LpReliability.IdleAckTimerExpires: where the source loops without end the model stops after one round and reports it.
- LpReassembler.DoReassembly: parsing the joined bytes into a Block is taken to succeed.
- StreamTransport.TlvIsStable: numbers that are not in their shortest encoding are accepted; the framing results hold for any parser that is stable in this sense.
- Forwarder.Forwarder.OnIncomingInterest: forwarding hints are not modelled.
- Forwarder.Forwarder.SendData: the PIT token of the in-record is not copied to the Data.
- Forwarder.Forwarder.OnIncomingData: which entries match is an input, and the Content Store and the unsolicited data policy are not modelled.
- Forwarder.Forwarder.SendDataToAll: the order in which different faces are served is not modelled; each face's own order is.
- Forwarder.Forwarder.RemoveFace: FIB cleanup and name tree pruning are not modelled.
- RoundRobin.TakesTurns: no Nack, Data, expiry of an out-record or hop-limit drop for the entry, as the property presupposes.
- RetxSuppression.DecidePerPitEntry: the multiplier is an exact real number, not a float.
- Suppression per upstream and the self-learning, ASF, NCC, access, multicast and random strategies.
- The onNewNextHop and onDroppedInterest pipelines, which do nothing with best-route.
- Congestion marking: only that a mark may be added to any packet sent; when is not modelled.
- Encoding and decoding of packets; only encoded sizes are modelled, and a bare packet is one whose encoding is just its payload.
- Sockets, channels, send queues, management, RIB, configuration and the name tree.
