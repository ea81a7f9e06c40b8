# DTLS, SSL 3.0 MAC, calendar and stream model

A Dafny model of the record and handshake layer of the DTLS stack that the firmware bundles, and
of three smaller cores beside it.

- **Receiving.** Handshake fragments are reassembled in place in one receive buffer
  (`Fragments`, `Reassembly`, `ReassemblyMoves`, `ReassemblyBuffer`); `Receive` is the receiving
  half of the context with its positions in that buffer, `ReceiveSpec` the same steps on values,
  `ReceiveRuns`, `ReceiveLoop` and `Completion` what holds over whole runs, `Arrivals` what an
  authentic record does, `Failures` what can arrive for which the loop does not end as it should.
- **Replay.** The anti-replay bitmap over 32-bit words (`WordBits`, `Replay`).
- **Sending.** The buffered flight, the cutting of messages, datagrams, record numbers and the
  retransmission timer (`FlightSpec`, `Transmit`, `SequenceNumber`, `Retransmission`), what
  protection adds to a record (`Protection`), and what packing makes of both (`Packing`).
- **Both sides.** `Session` follows whole datagrams through the receiver, `Progress` says when they
  hand a message up, `EndToEnd` joins both with the sender.
- **SSL 3.0.** The constant-time padding and MAC checks against their plain meaning
  (`ConstantTime`, `SslPadding`, `HashAlgorithm`, `SslMac`).
- **Calendar.** Unix time and dates against a calendar that counts days (`Calendar`).
- **Stream.** The chunking of writes and the delivery of reads over a stream (`Stream`).

Objects that the source updates in place are classes over arrays; each method is tied to a
function on values, and the properties of whole runs are proved about those functions.

Ciphers, compression functions, sockets and clocks are parameters: a cipher is any pair of
functions of which one inverts the other and that grows a record by what the suite adds, a
socket may refuse any datagram, a clock may show anything. Where a contract has to say that
nothing else makes an operation fail, a constant of the object stands for a socket and a cipher
library that refuse nothing (`Transmitter.faultless`, `Writer.reliable`).

## What the model shows about the code

- The move that drops a contained fragment is given a length that counts the octets in front of
  it as well (dtls_record.c:1111-1112). The queue itself is right, but the move touches octets
  behind it and can read beyond the buffer. `ReassemblyMoves.CallFitsIff` says exactly when the
  moves of a call stay where they may, `Failures.DuplicateOverruns` shows two datagrams after
  which they do not.
- The space check (dtls_record.c:1047) does not see where the arriving fragment lies, and making
  room can overwrite it (`ReassemblyMoves.ArrivingFragmentOverwritten`). It does not exactly
  when the fragment lies behind the grown queue (`ReassemblyMoves.SurvivesIff`).
- The copy of dtls_record.c:679-680 is a memcpy. It is defined only for a record that is not longer
  than what lies in front of it.
- A drop that stays in the buffer but writes beyond what has been read is a defined move: it shifts
  octets of the record or of the datagram that are still to be read
  (`Failures.DuplicateGarbles`, `Failures.SecondRecordShifted`).
- `ReceiveLoop.Clear` joins these conditions, and the methods on the receive buffer require it of the
  record at hand. The value-level loop reports the first record that breaks it, as `Overrun` where
  nothing defines what the code does, as `Garbled` where a move garbles what is unread;
  `Failures.FragmentOverrunsIff` and `Failures.OtherArrives` say exactly which records do,
  `ReceiveLoop.NeverOverruns` gives room that is enough for any content.
- The overhead estimate is made for length 0 and for the length with the record header
  (dtls_record.c:880, 908), and CBC padding depends on the length: a record can be up to a block
  less one octet longer than estimated. `Packing.FragmentExceedsIff` says exactly when a fragment on
  its own exceeds the PMTU, `Packing.EstimateMisleadsIff` when a record that is added to a datagram
  or sent alone exceeds what is left. The bound on datagrams is therefore the PMTU plus that slack; a
  record that is no handshake record is not fragmented and may exceed it on its own.
- Nothing checks the protected record against the buffer, which is allocated with exactly the size that
  the estimates are compared with (tls_handshake.c:70). `Packing.RecordLeavesBuffer` and
  `Packing.FragmentLeavesBuffer` are sizes for which it does not fit. The methods on the transmit
  buffer require that it does, for the record at hand or for the flight in the order in which it is
  packed (`Packing.FlightClear`); `Packing.AlwaysClear` says where this cannot fail.
- Lines 628-629 and 661-662 of dtls_record.c return without consuming the record; the receive loop
  then repeats for ever (`ReceiveRuns.StuckForever`), for instance on the one record of
  `Failures.OldVersionSpins`. Termination is stated for exactly the other records.
- Line 792 of dtls_record.c redirects the record that line 821 uses to advance. The walk
  over a flight stays on track exactly when no record but the last is both protected and no
  handshake record (`FlightSpec.VisitsAllIff`), as in every initial handshake; in a later one a
  message can be skipped (`FlightSpec.FinishedSkipped`). Sending a flight requires that it stays
  on track, one step of the walk does not.
- The version error of dtls_record.c:368 is overwritten at line 375: records of any version are
  read.
- A server takes over record and message numbers from a first ClientHello (dtls_record.c:479-494).
  The account of record numbers starts over there, and the run-wide delivery theorem is about a
  client.
- After a write that failed in the middle, the 1/n-1 split can cut the rest differently from the
  chunk that is still in the buffer, and octets are then sent twice. `Stream.RetryConservesIff`
  tells exactly when a retry is safe.

## Model

| member | source | states |
|---|---|---|
| Fragments.DecodeEncode | SAME54_Oryx_ATECC608/cyclone_ssl/dtls_record.c:435-472 | Whatever buffer a fragment is stored in, reading its header and payload at that place yields the fragment. |
| Fragments.EncodeDecode | SAME54_Oryx_ATECC608/cyclone_ssl/dtls_record.c:435-472 | The octets of any whole fragment in a record are those of the fragment read from them: the wire form is a bijection. |
| Fragments.EncodeQueueInjective | SAME54_Oryx_ATECC608/cyclone_ssl/dtls_record.c:1025-1046 | The octets of a reassembly queue have exactly one reading as entries. |
| Reassembly.ReassembleKeepsInvariant | SAME54_Oryx_ATECC608/cyclone_ssl/dtls_record.c:1025-1128 | After every accepted fragment the queue holds entries of one message, in strictly ascending order with a real gap between neighbours, and it still fits the space that was checked. |
| Reassembly.ReassembleCovers | SAME54_Oryx_ATECC608/cyclone_ssl/dtls_record.c:1050-1128 | The positions the queue covers after a call are those it covered before united with the range of the new fragment, no more and no fewer. |
| Reassembly.MismatchIff | SAME54_Oryx_ATECC608/cyclone_ssl/dtls_record.c:1025-1044 | On a queue of one message the walk, although it stops at the first larger offset, refuses exactly the fragments of another type or length. |
| Reassembly.CompleteIffCovered | SAME54_Oryx_ATECC608/cyclone_ssl/dtls_record.c:559-573 | A queue of fragments cut from one message passes the completion test exactly when it covers the message, and then its only entry is the whole message. |
| Reassembly.RoundTrip | SAME54_Oryx_ATECC608/cyclone_ssl/dtls_record.c:559-573 | Fragments of a message in any order, with any repeats and overlaps: space is the only reason to refuse one, completion means coverage, and what is stored then is the unfragmented message, header and payload. |
| ReassemblyMoves.CallFitsIff | SAME54_Oryx_ATECC608/cyclone_ssl/dtls_record.c:1062-1117 | The pass as a whole stays within the buffer and off what is still unread exactly when its first drop does: f itself, if the entry in front contains it, or the entry behind, if f contains it; in closed form over the lengths of the queue. |
| ReassemblyMoves.SpaceCheckIsNotEnough | SAME54_Oryx_ATECC608/cyclone_ssl/dtls_record.c:1047-1115 | In the least receive buffer that can be configured, two fragments of one message can arrive of which the second, a duplicate of one octet, passes the space check although the move that drops it reads beyond the buffer. |
| ReassemblyMoves.SurvivesIff | SAME54_Oryx_ATECC608/cyclone_ssl/dtls_record.c:1047-1058 | Making room leaves a fragment behind the queue alone, and the operands of the memcpy that follows are disjoint, exactly when the fragment lies behind the grown queue. |
| ReassemblyMoves.ArrivingFragmentOverwritten | SAME54_Oryx_ATECC608/cyclone_ssl/dtls_record.c:1047-1059 | In the least receive buffer, two fragments of one message can arrive of which the second passes the space check although making room overwrites it before it is copied. |
| ReassemblyBuffer.FindPosition | SAME54_Oryx_ATECC608/cyclone_ssl/dtls_record.c:1019-1045 | The insertion walk over the octets stops with a mismatch exactly when the queue values do, and otherwise at the offset of the insertion index. |
| ReassemblyBuffer.InsertFragment | SAME54_Oryx_ATECC608/cyclone_ssl/dtls_record.c:1050-1060 | Where the copy is defined, the two moves store the queue with the fragment inserted, and touch nothing behind it. |
| ReassemblyBuffer.JoinInPlace | SAME54_Oryx_ATECC608/cyclone_ssl/dtls_record.c:1088-1108 | Moving the new octets onto the previous entry and patching its length field stores the joined entry in front of the entries that follow. |
| ReassemblyBuffer.DropInPlace | SAME54_Oryx_ATECC608/cyclone_ssl/dtls_record.c:1109-1117 | The move with its too large length still leaves the queue without the contained entry. |
| ReassemblyBuffer.CoalesceQueue | SAME54_Oryx_ATECC608/cyclone_ssl/dtls_record.c:1062-1128 | As long as its moves stay in the buffer, one pass over the octets stores the coalesced queue, never longer than before, and leaves everything that is unread alone. |
| Receive.Receiver.ReassembleHandshakeMessage | SAME54_Oryx_ATECC608/cyclone_ssl/dtls_record.c:1004-1132 | On the receive buffer a call either is refused with the error the queue values determine and changes nothing, or, where its block moves are defined, stores exactly the queue that the value-level algorithm computes and leaves what is unread alone. |
| Receive.Receiver.constructor | SAME54_Oryx_ATECC608/cyclone_ssl/dtls_record.c:139-194 | An idle receiver with an empty queue satisfies the invariant of the receive buffer. |
| Receive.Receiver.DeliverComplete | SAME54_Oryx_ATECC608/cyclone_ssl/dtls_record.c:555-573 | The completion test on the first stored entry, the reset of the queue, and the step of rxMsgSeq modulo 2^16. |
| Receive.Receiver.Screen | SAME54_Oryx_ATECC608/cyclone_ssl/dtls_record.c:471-538 | Length tests, numbering takeover, sequence filter and version test in front of the queue, with the answer to a retransmitting peer sent exactly when the peer repeats the start of the last message of its flight. |
| Receive.Receiver.ProcessHandshake | SAME54_Oryx_ATECC608/cyclone_ssl/dtls_record.c:428-588 | One handshake fragment is taken from the record and moves the whole receive state as the value-level step says; the own flight is forgotten exactly when a message that ends a flight has been completed, and the numbering of a first ClientHello is taken over exactly when the step says so. |
| Receive.Receiver.ProcessOther | SAME54_Oryx_ATECC608/cyclone_ssl/dtls_record.c:590-686 | An alert of two octets or more, the ChangeCipherSpec that the side waits for (state 23 of a client, 19 of a server) and application data in state 30, the last two in the negotiated version, are copied to the front of the buffer with the queue flushed, and nothing else is; application data in state 30 drops the own flight, and nothing else does. |
| ReceiveSpec.OtherOutcome | SAME54_Oryx_ATECC608/cyclone_ssl/dtls_record.c:590-686 | On values: those records and no other ones are handed up; one that only comes in another version is kept, and any other one dropped. |
| ReceiveSpec.FragmentOutcome | SAME54_Oryx_ATECC608/cyclone_ssl/dtls_record.c:471-588 | What becomes of any fragment, with the literal conditions: a sound one of the expected message in the right version is queued unless reassembly refuses it; a message that is then whole is handed up, and the own flight dropped exactly for the types 1, 3, 14 and 20; the own flight is repeated exactly for the beginning of an old message of type 1, 14 or 20; any other fragment changes neither queue nor data. |
| ReceiveSpec.ReadOutcome | SAME54_Oryx_ATECC608/cyclone_ssl/dtls_record.c:331-414 | A record is taken exactly when it is whole, of the current epoch, not seen before, and opens to at most 2^14 octets; then type and version come from its header, and its number goes into the window; in every other case nothing but the datagram changes. |
| Receive.Receiver.ProcessRecord | SAME54_Oryx_ATECC608/cyclone_ssl/dtls_record.c:423-690 | Every call whose block moves are defined does to buffer, positions, queue and counters what the value-level step does, for every content of the record. |
| Receive.Receiver.ReadRecord | SAME54_Oryx_ATECC608/cyclone_ssl/dtls_record.c:321-414 | The record in front of the datagram is opened in place exactly when framing, epoch, replay check and decryption allow, and its number enters the window exactly then. |
| Receive.Receiver.ReceiveDatagram | SAME54_Oryx_ATECC608/cyclone_ssl/dtls_record.c:180-192 | The datagram ends up at the end of the buffer, the queue in front is kept; twice the queue and three times the datagram are room enough for any content. |
| Receive.Receiver.WorkOff | SAME54_Oryx_ATECC608/cyclone_ssl/dtls_record.c:141-178 | Between two datagram reads the loop terminates and leaves receive state, replay window and place of the record as the value-level loop does, for every datagram on which that one neither spins nor meets a block move that is undefined or garbles what is unread. |
| ReceiveLoop.ClearEnough | SAME54_Oryx_ATECC608/cyclone_ssl/dtls_record.c:1047-1117 | A fragment with twice the stored queue and once its own length in front of it is never overwritten, nor is anything behind it, whatever the pass drops. |
| ReceiveLoop.NeverOverruns | SAME54_Oryx_ATECC608/cyclone_ssl/dtls_record.c:141-178 | With twice the length of queue, record and datagram in front of what is unread, no block move of the loop is undefined or touches unread octets, whatever the datagram contains. |
| ReceiveLoop.NeverSpins | SAME54_Oryx_ATECC608/cyclone_ssl/dtls_record.c:141-178 | With matching record versions the loop never spins, whatever the datagram contains. |
| Arrivals.FragmentArrives | SAME54_Oryx_ATECC608/cyclone_ssl/dtls_record.c:141-178 | An authentic, fresh record with a fragment that passes every test up to the space check, in front of any rest of a datagram, leads to a block move that is undefined or garbles the rest exactly when the closed form says so; otherwise the loop goes on with the fragment in the queue or its message handed up. |
| Failures.FragmentOverrunsIff | SAME54_Oryx_ATECC608/cyclone_ssl/dtls_record.c:141-178 | Such a fragment alone in an unprotected datagram leads to an undefined block move exactly when the closed form says so; otherwise the loop ends with the queue of the reassembly. |
| Failures.OtherArrives | SAME54_Oryx_ATECC608/cyclone_ssl/dtls_record.c:594-686 | A record of another type, alone in its datagram: one that is to be handed up leads to an undefined copy exactly when plaintext and protected form together are longer than the buffer, and is handed up otherwise; one that only comes in another version makes the loop spin; any other one is gone and leaves everything else as it was. |
| Failures.DataHandedUp | SAME54_Oryx_ATECC608/cyclone_ssl/dtls_record.c:647-686 | Two octets of application data in a DTLS 1.2 record reach a client that has finished its handshake. |
| Failures.LongAlertOverruns | SAME54_Oryx_ATECC608/cyclone_ssl/dtls_record.c:677-680 | A concrete such datagram: an alert record of 600 octets and the least buffer. |
| Failures.DuplicateOverruns | SAME54_Oryx_ATECC608/cyclone_ssl/dtls_record.c:1047-1115 | Two datagrams as they can arrive at an idle client with the least buffer: the loop works off the first and reads beyond the buffer on the second. |
| Failures.DuplicateGarbles | SAME54_Oryx_ATECC608/cyclone_ssl/dtls_record.c:1047-1115 | Two datagrams of which the second holds a duplicate and one more record: the drop stays within the buffer, but reaches into that record before it is read. |
| Failures.SecondRecordShifted | SAME54_Oryx_ATECC608/cyclone_ssl/dtls_record.c:1110-1112 | Afterwards the header of that record has been overwritten with its last octets. |
| Failures.WrongVersionSpins | SAME54_Oryx_ATECC608/cyclone_ssl/dtls_record.c:628-629 | A datagram with just the ChangeCipherSpec that is expected next, in a record of another version, makes the loop spin. |
| Failures.OldVersionSpins | SAME54_Oryx_ATECC608/cyclone_ssl/dtls_record.c:628-629 | A concrete such datagram: a ChangeCipherSpec of DTLS 1.0 for a client that has agreed on DTLS 1.2. |
| ReceiveRuns.InOrderExactlyOnce | SAME54_Oryx_ATECC608/cyclone_ssl/dtls_record.c:499-587 | Over every run of a client, with any arrivals, losses, repeats and reorderings, the handshake messages handed up are the messages of the peer in order, each once, and everything queued belongs to the message numbered rxMsgSeq. |
| ReceiveRuns.HandedUpWhenCovered | SAME54_Oryx_ATECC608/cyclone_ssl/dtls_record.c:539-573 | An accepted fragment hands its message up exactly when it completes the coverage of that message, and what is handed up is the whole message. |
| ReceiveRuns.ProgressIffNotStuck | SAME54_Oryx_ATECC608/cyclone_ssl/dtls_record.c:139-178 | An iteration of the receive loop that goes on consumes octets exactly when the record is not one of the two that the version checks leave in place. |
| ReceiveRuns.StuckForever | SAME54_Oryx_ATECC608/cyclone_ssl/dtls_record.c:628-662 | A record kept by a version check is never left: the loop repeats the same state for ever. |
| ReceiveRuns.DrainsOrSticks | SAME54_Oryx_ATECC608/cyclone_ssl/dtls_record.c:139-178 | Whatever has arrived is worked off within as many iterations as there are octets, or the loop has run into such a record. |
| ReceiveRuns.Drains | SAME54_Oryx_ATECC608/cyclone_ssl/dtls_record.c:139-194 | With matching record versions every datagram of any content is drained in finitely many iterations. |
| ReceiveRuns.ProcessRecordShrinks | SAME54_Oryx_ATECC608/cyclone_ssl/dtls_record.c:423-690 | Processing a record never makes queue and unread record together longer. |
| WordBits.ShiftedBit | SAME54_Oryx_ATECC608/cyclone_ssl/dtls_misc.c:590-606 | A bit of a word shifted with carry is the bit the distance below, across the word boundary. |
| Replay.SlideBit | SAME54_Oryx_ATECC608/cyclone_ssl/dtls_misc.c:573-612 | Shifting whole words and then bits, from the top down, moves every bit of the bitmap by the jump distance and clears the lowest ones, for every distance. |
| Replay.ReplayWindow.constructor | SAME54_Oryx_ATECC608/cyclone_ssl/dtls_misc.c:443-452 | A fresh window stands for the empty set of validated numbers. |
| Replay.ReplayWindow.Init | SAME54_Oryx_ATECC608/cyclone_ssl/dtls_misc.c:443-452 | Initialising a window clears every word, so that it stands for the empty set. |
| Replay.ReplayWindow.Check | SAME54_Oryx_ATECC608/cyclone_ssl/dtls_misc.c:464-536 | The check answers as the plain set of validated numbers does: new numbers pass, those in the window exactly when not yet validated, older ones never. |
| Replay.ReplayWindow.Update | SAME54_Oryx_ATECC608/cyclone_ssl/dtls_misc.c:545-640 | For every window size and jump distance the bitmap and the right edge afterwards stand for the set with the number added. |
| Replay.ReplayWindow.Receive | SAME54_Oryx_ATECC608/cyclone_ssl/dtls_record.c:375-396 | Check, decryption verdict and update of one record are one step on the plain set. |
| Replay.NoReplay | SAME54_Oryx_ATECC608/cyclone_ssl/dtls_record.c:375-396 | Over any sequence of arrivals, authentic or not, no number is accepted twice, none that was accepted before is accepted again, and the set at the end is what was accepted. |
| Replay.FreshNumbersPass | SAME54_Oryx_ATECC608/cyclone_ssl/dtls_misc.c:464-536 | After any run a number passes the check exactly when it lies right of the left edge and has not been accepted. |
| FlightSpec.CutsPartition | SAME54_Oryx_ATECC608/cyclone_ssl/dtls_record.c:896-990 | The fragments of a message are cuts within the size limit, contiguous and in order, and their payloads concatenate to the message. |
| FlightSpec.CutsCount | SAME54_Oryx_ATECC608/cyclone_ssl/dtls_record.c:896-990 | There are exactly as many fragments as the length divided by the size, rounded up, and one for an empty message. |
| FlightSpec.CutsRoundTrip | SAME54_Oryx_ATECC608/cyclone_ssl/dtls_record.c:896-990 | Fragments cut from a message under any mix of PMTUs, arriving in any order with any repeats, rebuild the message exactly when they cover it. |
| FlightSpec.OneFullSetSuffices | SAME54_Oryx_ATECC608/cyclone_ssl/dtls_record.c:896-990 | One complete set of cuts among the arrivals is enough to rebuild the message. |
| FlightSpec.ReadBack | SAME54_Oryx_ATECC608/cyclone_ssl/dtls_record.c:331-414 | A sealed record at the front of a datagram is opened by the receiving side to exactly the plaintext record, and the rest of the datagram stays. |
| FlightSpec.VisitsAllIff | SAME54_Oryx_ATECC608/cyclone_ssl/dtls_record.c:792-821 | The walk over a buffered flight comes to the start of every record exactly when no record but the last is both protected and not a handshake record. |
| FlightSpec.FinishedSkipped | SAME54_Oryx_ATECC608/cyclone_ssl/dtls_record.c:792-821 | A ChangeCipherSpec written under AES-128-CBC with HMAC-SHA1 takes the walk beyond the Finished message behind it, which is then not sent. |
| FlightSpec.NumbersNeverRepeat | SAME54_Oryx_ATECC608/cyclone_ssl/dtls_record.c:936-981 | Fewer than 2^48 records of an epoch never repeat a number, and their numbers rise as long as the counter does not wrap. |
| SequenceNumber.Increment | SAME54_Oryx_ATECC608/cyclone_ssl/dtls_record.c:1276-1290 | The carry loop over six octets is addition of one modulo 2^48. |
| Transmit.Transmitter.constructor | SAME54_Oryx_ATECC608/cyclone_ssl/dtls_record.c:227-306 | An idle context satisfies the invariant of the sending half. |
| Transmit.Transmitter.EncryptRecord | SAME54_Oryx_ATECC608/cyclone_ssl/dtls_record.c:270-280 | Protection in place yields a record that the same cipher opens to the plaintext, grown by what the suite adds; octets in front are left alone. |
| Transmit.Transmitter.FragmentHandshakeMessage | SAME54_Oryx_ATECC608/cyclone_ssl/dtls_record.c:860-990 | It refuses exactly when the PMTU leaves no room, and otherwise the records emitted are the cuts of the message, in order, sealed by the engine; every datagram sent keeps the bound, the one under construction ends up as long as packing on values makes it, and the buffered flight is unchanged. |
| Transmit.Transmitter.SendRecord | SAME54_Oryx_ATECC608/cyclone_ssl/dtls_record.c:731-822 | One round of the walk emits what the record it stands at must become, brings the datagram under construction to the length that packing on values gives, and moves on by the buffered length of a handshake record, but by the length of the sealed copy of any other one. |
| Transmit.Transmitter.SendFlight | SAME54_Oryx_ATECC608/cyclone_ssl/dtls_record.c:699-847 | Every buffered record is visited once; the records emitted are the flight in order with each handshake message replaced by its cuts, every datagram is within the PMTU and the slack of the suite or a single record that cannot be fragmented, and the stored flight is unchanged; a transmission that is broken off has sent a beginning of that; with a socket and a cipher that refuse nothing it succeeds exactly when the PMTU in force is acceptable and leaves room for every record. |
| Transmit.Transmitter.AmpleCanSend | SAME54_Oryx_ATECC608/cyclone_ssl/dtls_record.c:699-847 | A flight on track can be sent whenever no suite is CBC, or the flight leaves as much more of the buffer than the PMTU in force as the suite may add to an estimate. |
| Transmit.Transmitter.AcceptedIff | SAME54_Oryx_ATECC608/cyclone_ssl/dtls_record.c:706-716 | With cipher suites of the usual sizes a flight is accepted exactly when 528 octets are left by PMTU and buffer, so always at the PMTU of 1452 while as much is free. |
| Transmit.Transmitter.WriteRecord | SAME54_Oryx_ATECC608/cyclone_ssl/dtls_record.c:227-309 | Handshake and ChangeCipherSpec records join the flight or are refused for space; any other record is numbered, protected and sent as one datagram of its own, whenever the estimate fits and nothing is refused. |
| Transmit.Transmitter.WriteProtocolData | SAME54_Oryx_ATECC608/cyclone_ssl/dtls_record.c:60-118 | A call that succeeds has buffered the record, or sent it protected and alone; in the states that complete a flight (1 and 21 of a client, 15 and 25 of a server) and for the stateless HelloVerifyRequest (4) the flight with the new record has gone out, whole and in order, behind everything sent before, with the counter reset, and the timeout but for the stateless one, which is not kept even if sending it fails. With nothing refused the call succeeds exactly when there is room for record and flight. |
| Transmit.Transmitter.Tick | SAME54_Oryx_ATECC608/cyclone_ssl/dtls_record.c:1223-1268 | An overdue flight that has gone out fewer than 5 times is sent again, which succeeds whenever that is sure: then the whole flight has gone out in order behind everything sent before, the counter is one up and the timestamp now; in any case the timeout is doubled up to 60000. With 5 transmissions a timeout is reported instead, and a call in any other situation changes nothing. The timer moves as the value-level timer does on the same event. |
| Transmit.Transmitter.RepeatFlight | SAME54_Oryx_ATECC608/cyclone_ssl/dtls_record.c:511-520 | A peer that repeats its flight is answered with the own one, whole and in order, whenever one is buffered, has gone out fewer than 5 times, and sending it is sure; the answer counts as a transmission. Otherwise nothing changes. |
| Transmit.Transmitter.Rebase | SAME54_Oryx_ATECC608/cyclone_ssl/dtls_record.c:479-494 | The send counter takes over the number of the ClientHello, and a new account of numbers begins. |
| Retransmission.BoundAndBackoff | SAME54_Oryx_ATECC608/cyclone_ssl/dtls_record.c:75-99 | From the start of a flight, over any mix of expiries and peer retransmissions, the flight goes out at most five times, and k timer-driven attempts leave a timeout of min(1000 * 2^k, 60000). |
| Retransmission.SendsExactly | SAME54_Oryx_ATECC608/cyclone_ssl/dtls_record.c:1223-1268 | Over any mix of expiries and peer retransmissions, with attempts that fail among them, the flight goes out on every occasion until it has gone out 5 times, and then no more. |
| Retransmission.MinutesApart | SAME54_Oryx_ATECC608/cyclone_ssl/dtls_record.c:1238-1263 | Looks at the timer a minute or more apart, on a clock that wraps, each repeat a flight that was sent at the start, four times; the fifth reports the timeout. |
| Retransmission.OnlyTimeoutRemains | SAME54_Oryx_ATECC608/cyclone_ssl/dtls_record.c:1241-1262 | When the retries are used up, an expiry reports a timeout and nothing is sent any more, whatever happens. |
| Retransmission.ExpiryAcrossWrap | SAME54_Oryx_ATECC608/cyclone_ssl/dtls_record.c:1241-1243 | The signed comparison of 32-bit clock values decides expiry correctly across wrap-around for delays below 2^31. |
| Protection.OverheadIsGrowth | SAME54_Oryx_ATECC608/cyclone_ssl/tls_misc.c:1159-1203 | Made for the length of the payload itself, the estimate is exactly what encryption adds. |
| Protection.GrowthBounded | SAME54_Oryx_ATECC608/cyclone_ssl/tls_record_encryption.c:287-337 | Whatever length the estimate was made for, encryption adds at most a block size less one more. |
| Protection.NeverUnderestimatesIff | SAME54_Oryx_ATECC608/cyclone_ssl/dtls_record.c:875-926 | The two estimates of the fragmentation code are upper bounds exactly for suites that are not CBC, or whose block size divides both the fixed part and 13. |
| Packing.EstimateMisleadsIff | SAME54_Oryx_ATECC608/cyclone_ssl/dtls_record.c:266-278 | The estimate lets a record pass whose protected form does not fit exactly when what is left lies between two values of the overhead: that for the length with the header and that for the length itself. |
| Packing.FragmentExceedsIff | SAME54_Oryx_ATECC608/cyclone_ssl/dtls_record.c:875-890 | A fragment of any size that the PMTU admits exceeds it when protected, alone in its datagram, exactly for CBC suites whose padding makes up more than the size leaves free; in closed form over block size, fixed part and length. |
| Packing.FullFragmentExceedsIff | SAME54_Oryx_ATECC608/cyclone_ssl/dtls_record.c:875-890 | A fragment as large as the PMTU admits exceeds it when protected exactly for CBC suites under which header and data leave less behind the last block than MAC and IV do. |
| Packing.FullFlightIff | SAME54_Oryx_ATECC608/cyclone_ssl/dtls_record.c:875-990 | A message of one such fragment becomes a datagram longer than the PMTU in force exactly then; where that PMTU is what the flight leaves of the buffer, this is exactly when the record does not stay in the buffer. |
| Packing.CbcExceedsPmtu | SAME54_Oryx_ATECC608/cyclone_ssl/dtls_record.c:875-990 | With AES-128-CBC and HMAC-SHA1 and the default PMTU of 1452 octets, a flight of one such message becomes a datagram of 1453. |
| Packing.FragmentLeavesBuffer | SAME54_Oryx_ATECC608/cyclone_ssl/dtls_record.c:875-990 | With the same suite and 601 octets left of the buffer, a fragment sized by the code becomes a record of 605. |
| Packing.RecordLeavesBuffer | SAME54_Oryx_ATECC608/cyclone_ssl/dtls_record.c:266-278 | In the buffer allocated for 515 octets, a record of 988 sent alone is estimated to fill the buffer and is 13 octets longer. |
| Packing.AlwaysClear | SAME54_Oryx_ATECC608/cyclone_ssl/dtls_record.c:699-990 | For suites that are not CBC, and for all others where the buffer exceeds the PMTU in force by the slack, every record of every flight fits when it is protected. |
| Completion.GappedLength | SAME54_Oryx_ATECC608/cyclone_ssl/dtls_record.c:1062-1128 | However many fragments have arrived, the queue of a message never holds more than seven times its length and one header. |
| Completion.AlwaysRoom | SAME54_Oryx_ATECC608/cyclone_ssl/dtls_record.c:1047-1048 | Eight times the length of the message and two headers are room enough for any number of fragments, repeats and overlaps. |
| Completion.ContainedIgnored | SAME54_Oryx_ATECC608/cyclone_ssl/dtls_record.c:1109-1117 | A fragment whose octets an entry holds already leaves the queue exactly as it is. |
| Completion.HandedUpIffCovered | SAME54_Oryx_ATECC608/cyclone_ssl/dtls_record.c:499-573 | Fragments of the expected message, in any order with any repeats and overlaps, and with room for each when it arrives, where repeats do not count, make dtlsProcessRecord hand the message up exactly when they cover it, whole and once; late fragments change nothing. |
| EndToEnd.OneTransmissionDelivers | SAME54_Oryx_ATECC608/cyclone_ssl/dtls_record.c:499-990 | One complete set of fragments cut by the sender among what arrives hands the message up. |
| Progress.DistinctFresh | SAME54_Oryx_ATECC608/cyclone_ssl/dtls_misc.c:464-536 | Record numbers that are new and no further apart than the window is wide pass the window in any order. |
| Progress.HandedUpIff | SAME54_Oryx_ATECC608/cyclone_ssl/dtls_record.c:139-573 | Datagrams with fragments of the expected message, fresh and with room, in any order, with any repeats and overlaps and mixed with fragments of other messages, go through framing, epoch check, replay window, decryption and reassembly and hand the message up exactly when its fragments cover it, whole and once. |
| EndToEnd.TransmissionHandsUp | SAME54_Oryx_ATECC608/cyclone_ssl/dtls_record.c:139-990 | If all datagrams of one complete transmission of a flight arrive, in any order, fresh and with room, the message of the flight that the client waits for is handed up. |
| EndToEnd.FlightFromPeer | SAME54_Oryx_ATECC608/cyclone_ssl/dtls_record.c:860-990 | Whatever fragment sizes are in force, every handshake record that a record of the flight expands to carries fragments of the peer as the delivery theorems ask for. |
| EndToEnd.TransmissionGenuine | SAME54_Oryx_ATECC608/cyclone_ssl/dtls_record.c:699-990 | Every record that a transmission of the flight has emitted, complete or broken off, is a sealed record of the flight. |
| EndToEnd.SentGenuine | SAME54_Oryx_ATECC608/cyclone_ssl/dtls_record.c:699-847 | Every datagram handed to the socket is a row of such records. |
| EndToEnd.TransmissionKeepsGenuine | SAME54_Oryx_ATECC608/cyclone_ssl/dtls_record.c:699-847 | After any further transmission, complete or broken off, every datagram ever handed to the socket is still such a row. |
| EndToEnd.GenuineReads | SAME54_Oryx_ATECC608/cyclone_ssl/dtls_record.c:321-414 | Read record by record and opened by the engine of its epoch, such a datagram yields fragments of the peer and nothing else. |
| Session.ExchangeDelivers | SAME54_Oryx_ATECC608/cyclone_ssl/dtls_record.c:139-414 | Over every exchange of datagrams, through framing, epochs, replay window, decryption and reassembly, the messages handed up are those of the peer in order, each once, as long as no datagram opens to handshake records of anyone else. |
| EndToEnd.FlightsDelivered | SAME54_Oryx_ATECC608/cyclone_ssl/dtls_record.c:139-990 | Through a network that loses, repeats and reorders the datagrams of any transmissions of the flights under any PMTUs, the client hands up the messages of the flights in order and each once, as far as rxMsgSeq has come. |
| ConstantTime.MacrosMean | SAME54_Oryx_ATECC608/cyclone_crypto/core/crypto.h:898-920 | The 8-bit test, selection and accumulation macros have their plain meaning. |
| SslPadding.CheckFilled | SAME54_Oryx_ATECC608/cyclone_ssl/ssl_misc.c:236-262 | One masked pass over up to 255 octets finds out whether the padding string carries one value throughout. |
| SslPadding.VerifyPadding | SAME54_Oryx_ATECC608/cyclone_ssl/ssl_misc.c:214-270 | The check returns 0 and the padding length exactly when the padding is shorter than payload and block and filled with its length or with zeroes, and otherwise 1 and 0. |
| HashAlgorithm.PaddingFills | SAME54_Oryx_ATECC608/cyclone_crypto/hash/md5.c:201-211 | The padding brings any length to 56 modulo 64, and the length field completes a block. |
| HashAlgorithm.StoredLengthIsField | SAME54_Oryx_ATECC608/cyclone_crypto/hash/sha1.c:209-211 | Storing the bit length as two words in the byte order of the algorithm is storing its eight octets in that order. |
| HashAlgorithm.HashContext.constructor | SAME54_Oryx_ATECC608/cyclone_crypto/hash/md5.c:136-149 | A new context has digested nothing. |
| HashAlgorithm.HashContext.Init | SAME54_Oryx_ATECC608/cyclone_crypto/hash/md5.c:136-149 | Initialisation forgets everything digested. |
| HashAlgorithm.HashContext.Update | SAME54_Oryx_ATECC608/cyclone_crypto/hash/md5.c:158-188 | Digesting in pieces of any length is digesting the concatenation. |
| HashAlgorithm.HashContext.Final | SAME54_Oryx_ATECC608/cyclone_crypto/hash/md5.c:197-229 | The digest is the output of the chaining value over the padded message. |
| HashAlgorithm.HashContext.FinalRaw | SAME54_Oryx_ATECC608/cyclone_crypto/hash/md5.c:238-252 | The raw digest is the output of the chaining value over the whole blocks digested. |
| HashAlgorithm.DigestCollides | SAME54_Oryx_ATECC608/cyclone_crypto/hash/md5.c:158-229 | Padding, length field and chaining bring in no collisions of their own: two messages below 2^61 octets with the same digest lead to two blocks that are compressed to the same value, or to two values with the same output. |
| SslMac.ComputeMac | SAME54_Oryx_ATECC608/cyclone_ssl/ssl_misc.c:154-202 | The MAC of section 5.2.3.1 of RFC 6101 for MD5 and SHA-1, and an error for any other hash. |
| SslMac.MacOctets | SAME54_Oryx_ATECC608/cyclone_ssl/ssl_misc.c:165-198 | What is hashed, octet by octet: secret, 48 or 40 octets of 0x36, record number, type, length and data inside; secret, as many octets of 0x5C and the inner digest outside. |
| SslMac.SameMacCollides | SAME54_Oryx_ATECC608/cyclone_ssl/ssl_misc.c:165-198 | The MAC covers key, record number, type, length and data: equal MACs of different inputs with keys of one length give two messages with the same digest, and a collision of the compression function or of its output. |
| SslMac.QueuedDigits | SAME54_Oryx_ATECC608/cyclone_ssl/ssl_misc.c:340-348 | Giving up the swapped 64-bit length octet by octet from the low end yields the length field of the algorithm. |
| SslMac.EndPlaced | SAME54_Oryx_ATECC608/cyclone_ssl/ssl_misc.c:332-353 | The secret end of the padded message lies at a block boundary, behind the data and within the public number of octets that are hashed. |
| SslMac.StreamIsPadded | SAME54_Oryx_ATECC608/cyclone_ssl/ssl_misc.c:376-396 | The masked octets up to the secret end, behind the prefix, are the padded message. |
| SslMac.HashOctet | SAME54_Oryx_ATECC608/cyclone_ssl/ssl_misc.c:376-417 | One round of the loop digests the next octet of the stream and keeps the hash value of the block at the secret end. |
| SslMac.HashStream | SAME54_Oryx_ATECC608/cyclone_ssl/ssl_misc.c:332-418 | The hash value picked among those of all candidate blocks is the digest of the message of secret length. |
| SslMac.VerifyMac | SAME54_Oryx_ATECC608/cyclone_ssl/ssl_misc.c:288-441 | It returns 0 exactly when the given MAC is the one the direct computation yields for the first dataLen octets, for every secret length within 255 of the public one. |
| Calendar.ClosedCounts | SAME54_Oryx_ATECC608/common/date_time.c:258-292 | The closed form of the conversion counts the days of the Gregorian calendar year by year and month by month, for every valid date from year 1 on. |
| Calendar.DateToUnixCounts | SAME54_Oryx_ATECC608/common/date_time.c:258-292 | The conversion yields the Unix time of every valid date modulo 2^32, although every step wraps around. |
| Calendar.ConvertUnixTimeToDate | SAME54_Oryx_ATECC608/common/date_time.c:198-249 | For every time below 2^32 the result is a valid Gregorian date whose Unix time is that time, clamped at 0, on the right weekday. |
| Calendar.ThereAndBack | SAME54_Oryx_ATECC608/common/date_time.c:198-292 | A date a time was converted to is converted back to that time. |
| Calendar.BackAndThere | SAME54_Oryx_ATECC608/common/date_time.c:198-292 | A valid date within 32 bits of Unix time is reproduced, field by field, by the conversion there and back. |
| Calendar.CompareIsTimeOrder | SAME54_Oryx_ATECC608/common/date_time.c:302-340 | Comparing fields is comparing Unix time and then milliseconds, and it is antisymmetric. |
| Calendar.WeekdayCounts | SAME54_Oryx_ATECC608/common/date_time.c:351-374 | Zeller's congruence gives the day number plus three modulo seven for every valid date, so the weekday advances by one each day. |
| Stream.Writer.constructor | SAME54_Oryx_ATECC608/cyclone_ssl/tls.c:1651-1682 | A new connection has written nothing. |
| Stream.Writer.WriteProtocolData | SAME54_Oryx_ATECC608/cyclone_ssl/tls_record.c:55-140 | A chunk is cut into records within the limits, all but the last as long as these allow; a refused record leaves the chunk in the buffer, and a later call sends the rest of that chunk, whatever data it is given. |
| Stream.Writer.Write | SAME54_Oryx_ATECC608/cyclone_ssl/tls.c:1682-1765 | The records carry what is reported as written, in order and once, except that a chunk found in the buffer goes out in place of the first piece; each record keeps all limits, a call that fails leaves at most the chunk that follows what it reported, the length kept for the split is that of the last chunk, and a socket that takes everything never makes it fail. |
| Stream.RetryConservesIff | SAME54_Oryx_ATECC608/cyclone_ssl/tls.c:1720-1732 | A caller that goes on with the rest after a failure has exactly the rest added to the stream if and only if the 1/n-1 split does not cut the rest differently; otherwise all but one of the octets left in the buffer are sent twice. |
| Stream.RetryRepeats | SAME54_Oryx_ATECC608/cyclone_ssl/tls.c:1720-1732 | With limits that can be configured there is a failure after which the honest retry sends 511 octets twice. |
| Stream.Reader.constructor | SAME54_Oryx_ATECC608/cyclone_ssl/tls.c:1819-1822 | A new reader has the whole stream ahead. |
| Stream.Reader.FindBreak | SAME54_Oryx_ATECC608/cyclone_ssl/tls.c:1892-1898 | The search ends with the first break character, or at the limit. |
| Stream.Reader.Read | SAME54_Oryx_ATECC608/cyclone_ssl/tls.c:1819-1998 | The octets returned are the next ones of the stream and all others remain, whatever happens in between. A call that succeeds has returned octets or, without flags, taken a record from the connection. The break character occurs only as the last octet; with the wait flag a shorter result means that the connection is closing. On a connection with nothing but application data it is determined which calls succeed, and without flags a call returns what is buffered, or else the next record, as far as the size goes. |
| Stream.Reader.ReadCalls | SAME54_Oryx_ATECC608/cyclone_ssl/tls.c:1819-1998 | Over any mix of calls the octets handed out are consecutive octets of the stream, none lost or repeated; with nothing but application data, as many calls that ask for something as there are octets and records yield the whole stream. |

## Left out

- Receive.Receiver.ProcessRecord: requires that the block moves for this record are defined and clear of what is unread. Where they are not defined, nothing says what the code does; where they are defined and garble what is unread, the model stops with that report and does not follow the garbled octets.
- Receive.Receiver.WorkOff: stated for datagrams on which the value-level loop neither spins nor meets such a block move.
- ReassemblyBuffer.InsertFragment: requires the fragment to lie behind the grown queue, which is exactly where the copy is defined (`ReassemblyMoves.SurvivesIff`); the space check admits others.
- Receive.Receiver.ReassembleHandshakeMessage: claims the octets of the queue and those still unread, not what the over-long move leaves between them; the receive buffer is shorter than 2^24 octets.
- Receive.Receiver.ReadRecord: the engine for decryption stays the same during a call; between calls the epoch changes on values only, in `Session`.
- Session.ExchangeDelivers: for a client; an exchange stops where the loop ends with an error, would spin, or would make a block move that is not clear.
- Progress.HandedUpIff: for datagrams of handshake records of the current epoch, each with one fragment, as the sender makes them.
- ReceiveRuns.InOrderExactlyOnce: for a client, for fewer than 2^16 messages, and for fragments cut from the peer's messages, because the source never checks that offset plus length stays within the message.
- Transmit.Transmitter.SendFlight: for flights on which the walk stays on track and every record fits field and buffer when it is protected; where a walk that has left its track goes is not followed, and nothing defines what the code does with a record that does not fit.
- Transmit.Transmitter.EncryptRecord: requires that the protected record fits the buffer, which the code does not check.
- Transmit.Transmitter.WriteRecord: a record that the estimate lets pass has to fit the 16-bit length field and the buffer when it is protected.
- SslMac.HashStream: requires that the octets the loop looks at exist. It looks at up to 72 octets behind maxDataLen (`SslMac.EndPlaced`), which in the record are the MAC, the padding and what follows them in the buffer; their values do not matter.
- SslMac.VerifyMac: with the same requirement; the MAC key stays below 2^27 octets and the data below 2^28, as all records do, so that the length in bits and the 32-bit comparisons do not wrap around; timing is not modelled.
- Calendar.ConvertUnixTimeToDate: for times below 2^32; a wider time_t is cut to 32 bits by the source.
- Stream.Writer.Write: limits are positive, since a limit of 0 makes the source loop for ever.
- The comparison macros on 32-bit sizes are used with their plain meaning; only the octet macros are proved from their bits.
- Ciphers, compression functions, key derivation and random numbers: parameters of the model.
- Sockets, clocks, memory allocation: nondeterministic inputs.
- The datagram branch of tlsRead and tlsWrite: one record for one call, easy beside the stream.
- dtlsReadDatagram: its loop only calls the timer; blocking and timeouts of the caller are not part of this model.
- Handshake parsing, state changes of the handshake, alerts, session storage, cookies and version selection: the model takes the state as given.
- The TLS 1.3 client, drivers, threads and configuration.
