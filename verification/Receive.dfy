/** The receiving half of the DTLS record layer in place: the reassembly queue at the front of
    the receive buffer, the unread record and datagram at its back. */
module Receive {
  import opened Bytes
  import opened Fragments
  import opened ReceiveSpec
  import opened ReassemblyBuffer
  import Reassembly
  import ReassemblyMoves
  import SequenceNumber
  import Transmit
  import Retransmission
  import FlightSpec
  import Replay
  import ReceiveRuns
  import opened ReceiveLoop

  lemma QueuedSome(q: seq<Fragment>, f: Fragment, capacity: int)
    requires Reassembly.Gapped(q)
    ensures var r := Reassembly.Reassemble(q, f, capacity); r.Queued? ==> r.queue != []
  {
  }

  /** What Accept does with the outcome of the reassembly. */
  lemma AcceptOutcome(s: RxState, f: Fragment, size: nat)
    requires Reassembly.Gapped(s.queue)
    ensures var (r, o) := (Accept(s, f, size), Reassembly.Reassemble(s.queue, f, size - |s.datagram|));
      && (o.Rejected? ==> r == Result(s.(queue := []), FromReassembly(o.error), r.effect) && !r.effect.flightDone)
      && (o.Queued? ==> o.queue != [] && r.status == Ok)
      && (o.Queued? && !Reassembly.Complete(o.queue[0]) ==> r.next == s.(queue := o.queue) && !r.effect.flightDone)
      && (o.Queued? && Reassembly.Complete(o.queue[0]) ==>
            && r.next == s.(queue := [], msgSeq := (s.msgSeq + 1) % 0x1_0000, pending := Encode(o.queue[0]))
            && (r.effect.flightDone <==> EndsFlight(o.queue[0].msgType)))
  {
  }

  /** What a screened fragment leads to, and the room it has. */
  lemma FragmentCases(s: RxState, f: Fragment, at: nat, size: nat)
    requires Reassembly.Gapped(s.queue) && ClearOfQueue(s, f, at, size)
    ensures var (r, t) := (ReceiveSpec.ProcessFragment(s, f, size), Rebased(s, f));
      if Screened(s, f) != Ok then r.next == t && r.status == Screened(s, f) && !r.effect.flightDone
      else
        && Reassembly.Gapped(t.queue) && t.queue == s.queue && t.datagram == s.datagram && t.pending == s.pending
        && !Resends(s, f)
        && r.next == Accept(t, f, size).next && r.status == Accept(t, f, size).status
        && r.effect.flightDone == Accept(t, f, size).effect.flightDone
        && (Reassembly.Reassemble(s.queue, f, size - |s.datagram|).Queued? ==>
              Apart(s.queue, f, at, Unread(s, at + |Encode(f)|, size), size))
  {
  }

  lemma UnknownDropped(s: RxState)
    requires s.contentType != TYPE_CHANGE_CIPHER_SPEC && s.contentType != TYPE_ALERT
    requires s.contentType != TYPE_APPLICATION_DATA
    ensures ReceiveSpec.ProcessOther(s) == Dropped(s, UnexpectedMessage)
  {
  }

  /** The fragment a record starts with. */
  function Front(record: seq<byte>): (f: Fragment)
    ensures Framed(record) ==> HEADER_LEN + |f.data| <= |record|
  {
    if Framed(record) then Decode(record, 0) else Fragment(0, 0, 0, 0, [])
  }

  /** What is left of the record behind it. */
  function BehindFront(record: seq<byte>): (rest: seq<byte>)
    ensures Framed(record) ==> |record| == HEADER_LEN + |Front(record).data| + |rest|
  {
    if Framed(record) then record[HEADER_LEN + |Front(record).data|..] else []
  }

  /** What the tests in front of the reassembly make of the fragment, case by case. */
  lemma ScreenOutcome(s: RxState, f: Fragment)
    ensures FragmentLengthBad(f) ==> Screened(s, f) == InvalidLength && Rebased(s, f) == s && !Resends(s, f)
    ensures FragmentLengthBad(f) <==> |f.data| > f.length || (|f.data| == 0 && f.length != 0)
    ensures !FragmentLengthBad(f) && Rebases(s, f) ==> Rebased(s, f) == s.(msgSeq := f.msgSeq)
    ensures !Rebases(s, f) ==> Rebased(s, f) == s
    ensures Rebases(s, f) <==>
      f.msgType == CLIENT_HELLO && s.state == STATE_CLIENT_HELLO && s.entity == Server && s.epoch == 0
    ensures !FragmentLengthBad(f) && f.msgSeq != Rebased(s, f).msgSeq ==> Screened(s, f) == InvalidSequenceNumber
    ensures f.msgSeq >= Rebased(s, f).msgSeq ==> !Resends(s, f)
    ensures !FragmentLengthBad(f) && f.msgSeq < Rebased(s, f).msgSeq ==>
      (Resends(s, f) <==> EndsPeerFlight(f.msgType) && f.offset == 0)
    ensures !FragmentLengthBad(f) && f.msgSeq == Rebased(s, f).msgSeq ==>
      Screened(s, f) == if VersionEnforced(s) then VersionNotSupported else Ok
    ensures VersionEnforced(s) ==> s.state > STATE_SERVER_HELLO && s.recordVersion != TranslateVersion(s.version)
    ensures s.state > STATE_SERVER_HELLO && !VersionEnforced(s) ==> s.recordVersion == TranslateVersion(s.version)
  {
  }

  lemma RecordCases(s: RxState, at: int, size: nat)
    requires Reassembly.Gapped(s.queue) && s.record != []
    ensures s.contentType == TYPE_HANDSHAKE ==>
      ReceiveSpec.ProcessRecord(s, size) == ReceiveSpec.ProcessHandshake(s, size)
    ensures s.contentType != TYPE_HANDSHAKE ==>
      && NextPlace(s, at, size) == at
      && (Clear(s, at, size) && ReceiveSpec.ProcessOther(s).status == Ok ==> |s.record| <= at)
      && ReceiveSpec.ProcessRecord(s, size) == ReceiveSpec.ProcessOther(s)
      && !ReceiveSpec.ProcessOther(s).effect.resend && !ReceiveSpec.ProcessOther(s).effect.rebase
  {
  }

  lemma UnframedResult(s: RxState, size: nat)
    requires Reassembly.Gapped(s.queue) && !Framed(s.record)
    ensures ReceiveSpec.ProcessHandshake(s, size) == Result(s.(record := []), InvalidLength, NOTHING)
    ensures BehindFront(s.record) == []
    ensures !NOTHING.resend && !NOTHING.flightDone && !NOTHING.rebase
  {
  }

  lemma FramedResult(s: RxState, at: int, size: nat)
    requires Reassembly.Gapped(s.queue) && Framed(s.record) && s.contentType == TYPE_HANDSHAKE
    requires Clear(s, at, size)
    ensures var (f, t) := (Front(s.record), s.(record := BehindFront(s.record)));
      && ClearOfQueue(t, f, at, size)
      && ReceiveSpec.ProcessHandshake(s, size) == ReceiveSpec.ProcessFragment(t, f, size)
      && (ReceiveSpec.ProcessFragment(t, f, size).effect.rebase <==> Rebases(t, f) && !FragmentLengthBad(f))
      && ReceiveSpec.ProcessFragment(t, f, size).effect.resend == Resends(t, f)
  {
  }

  /** The unread record moves on by the fragment it starts with. */
  lemma PlaceBehind(s: RxState, at: int, size: nat)
    requires s.record != [] && s.contentType == TYPE_HANDSHAKE
    ensures NextPlace(s, at, size) == if Framed(s.record) then at + |Encode(Front(s.record))| else at
  {
    hide Load24;
  }

  class Receiver {
    const rxBuffer: array<byte>
    const tx: Transmit.Transmitter
    const window: Replay.ReplayWindow
    const decryptor: Decryptor
    var version: nat
    var epoch: nat
    var rxFragQueueLen: nat
    var rxDatagramPos: nat
    var rxDatagramLen: nat
    var rxRecordPos: nat
    var rxRecordLen: nat
    var rxBufferPos: nat
    var rxBufferLen: nat
    var rxBufferType: byte
    var rxRecordVersion: nat
    var rxMsgSeq: nat
    var txMsgSeq: nat
    /** The entries of the reassembly queue. */
    ghost var queue: seq<Fragment>

    /** An idle receiver. */
    constructor (rxBuffer: array<byte>, tx: Transmit.Transmitter, window: Replay.ReplayWindow,
                 decryptor: Decryptor, version: nat)
      requires rxBuffer.Length < 0x100_0000
      ensures Valid() && this.rxBuffer == rxBuffer && this.tx == tx && this.window == window
      ensures queue == [] && rxMsgSeq == 0 && rxRecordLen == 0 && rxDatagramLen == 0 && rxBufferLen == 0
    {
      this.rxBuffer, this.tx, this.window, this.decryptor, this.version := rxBuffer, tx, window, decryptor, version;
      epoch, rxMsgSeq, txMsgSeq, rxRecordVersion, rxBufferType := 0, 0, 0, 0, 0;
      rxFragQueueLen, rxDatagramPos, rxDatagramLen := 0, 0, 0;
      rxRecordPos, rxRecordLen, rxBufferPos, rxBufferLen := 0, 0, 0, 0;
      queue := [];
      new;
      assert rxBuffer[..][..0] == [];
    }

    ghost predicate Layout()
      reads `rxFragQueueLen, `rxDatagramPos, `rxDatagramLen, `rxRecordPos, `rxRecordLen, `rxBufferPos, `rxBufferLen
    {
      Places() && rxFragQueueLen <= rxBuffer.Length
    }

    ghost predicate QueueStored()
      ensures QueueStored() ==> Reassembly.QueueInv(queue) && Reassembly.Gapped(queue)
      reads `rxFragQueueLen, `queue, rxBuffer
    {
      Reassembly.QueueInv(queue) && Stored(rxBuffer[..], rxFragQueueLen, queue)
    }

    ghost predicate Valid()
      ensures Valid() ==> Layout() && QueueStored()
      reads `rxFragQueueLen, `rxDatagramPos, `rxDatagramLen, `rxRecordPos, `rxRecordLen, `rxBufferPos, `rxBufferLen
      reads `queue, rxBuffer
    {
      Layout() && QueueStored()
    }

    /** The unread record, the unread datagram, and the octets ready for the caller. */
    ghost function Record(): seq<byte>
      requires Layout()
      reads `rxFragQueueLen, `rxDatagramPos, `rxDatagramLen, `rxRecordPos, `rxRecordLen, `rxBufferPos, `rxBufferLen
      reads rxBuffer
    {
      rxBuffer[..][rxRecordPos..rxRecordPos + rxRecordLen]
    }

    ghost function Datagram(): seq<byte>
      requires Layout()
      reads `rxFragQueueLen, `rxDatagramPos, `rxDatagramLen, `rxRecordPos, `rxRecordLen, `rxBufferPos, `rxBufferLen
      reads rxBuffer
    {
      rxBuffer[..][rxDatagramPos..rxDatagramPos + rxDatagramLen]
    }

    ghost function Pending(): seq<byte>
      requires Layout()
      reads `rxFragQueueLen, `rxDatagramPos, `rxDatagramLen, `rxRecordPos, `rxRecordLen, `rxBufferPos, `rxBufferLen
      reads rxBuffer
    {
      rxBuffer[..][rxBufferPos..rxBufferPos + rxBufferLen]
    }

    /** Where the first unread octet lies. */
    ghost function UnreadPos(): int
      reads `rxRecordPos, `rxRecordLen, `rxDatagramLen
    {
      if rxRecordLen > 0 then rxRecordPos else rxBuffer.Length - rxDatagramLen
    }

    /** The receive state as a value. */
    ghost function Abstract(): RxState
      requires Layout()
      reads this, rxBuffer, tx`state
    {
      RxState(tx.entity, tx.state, version, epoch, queue, rxMsgSeq, rxBufferType, rxRecordVersion,
              Record(), Datagram(), Pending())
    }

    /** dtlsReassembleHandshakeMessage on the fragment stored at the given place: the stored
        queue becomes what the value-level algorithm computes. */
    method ReassembleHandshakeMessage(at: nat, ghost f: Fragment, ghost limit: nat) returns (status: Status)
      requires Valid() && f.WireSized()
      requires at + |Encode(f)| <= limit <= rxBuffer.Length && rxBuffer[..][at..at + |Encode(f)|] == Encode(f)
      requires Reassembly.Reassemble(queue, f, rxBuffer.Length - rxDatagramLen).Queued? ==>
        Apart(queue, f, at, limit, rxBuffer.Length)
      modifies rxBuffer, `rxFragQueueLen, `queue
      ensures Valid()
      ensures SameFrom(old(rxBuffer[..]), rxBuffer[..], limit)
      ensures match Reassembly.Reassemble(old(queue), f, rxBuffer.Length - rxDatagramLen)
        case Queued(q) => status == Ok && queue == q
        case Rejected(e) => status == FromReassembly(e) && queue == old(queue) && rxBuffer[..] == old(rxBuffer[..])
    {
      DecodeEncode(rxBuffer[..], at, f);
      var fragOffset := Load24(rxBuffer[..], at + 6);
      var fragLength := Load24(rxBuffer[..], at + 9) + HEADER_LEN;
      var ok, pos := FindPosition(rxBuffer, rxFragQueueLen, rxBuffer[at], Load24(rxBuffer[..], at + 1), fragOffset,
                                  queue, f);
      if !ok {
        status := UnexpectedMessage;
        return;
      }
      if rxFragQueueLen + fragLength > rxBuffer.Length - rxDatagramLen {
        status := BufferOverflow;
        return;
      }
      InsertAndCoalesce(pos, at, fragLength, f, limit);
      status := Ok;
    }

    method InsertAndCoalesce(pos: nat, at: nat, fragLength: nat, ghost f: Fragment, ghost limit: nat)
      requires Valid() && f.WireSized() && fragLength == |Encode(f)|
      requires at + fragLength <= limit <= rxBuffer.Length && rxBuffer[..][at..at + fragLength] == Encode(f)
      requires Reassembly.Reassemble(queue, f, rxBuffer.Length - rxDatagramLen).Queued?
      requires Apart(queue, f, at, limit, rxBuffer.Length)
      requires pos == |EncodeQueue(queue[..Reassembly.InsertIndex(queue, f.offset)])|
      modifies rxBuffer, `rxFragQueueLen, `queue
      ensures Valid()
      ensures SameFrom(old(rxBuffer[..]), rxBuffer[..], limit)
      ensures queue == Reassembly.Reassemble(old(queue), f, rxBuffer.Length - rxDatagramLen).queue
    {
      hide *;
      ghost var s := Reassembly.Insert(queue, f);
      QueueParts();
      InsertFacts(rxBuffer[..], rxFragQueueLen, queue, f, rxBuffer.Length - rxDatagramLen, at, limit);
      ghost var before := rxBuffer[..];
      InsertFragment(rxBuffer, rxFragQueueLen, pos, at, fragLength, queue, f);
      ghost var inserted := rxBuffer[..];
      rxFragQueueLen := rxFragQueueLen + fragLength;
      ghost var grown := rxFragQueueLen;
      rxFragQueueLen := CoalesceQueue(rxBuffer, rxFragQueueLen, s, limit);
      SameFromOn(before, inserted, rxBuffer[..], grown, limit, limit);
      queue := Reassembly.Coalesce(s);
      QueueReady();
      PlacesKept();
    }

    lemma QueueParts()
      requires Valid()
      ensures Reassembly.QueueInv(queue) && Reassembly.Gapped(queue) && Stored(rxBuffer[..], rxFragQueueLen, queue)
      ensures rxFragQueueLen <= rxBuffer.Length < 0x100_0000
      ensures Places()
    {
    }

    /** The layout, apart from the queue. */
    ghost predicate Places()
      reads `rxDatagramPos, `rxDatagramLen, `rxRecordPos, `rxRecordLen, `rxBufferPos, `rxBufferLen
    {
      && rxBuffer.Length < 0x100_0000
      && rxRecordPos + rxRecordLen <= rxBuffer.Length
      && rxDatagramPos + rxDatagramLen <= rxBuffer.Length
      && (rxDatagramLen > 0 ==> rxDatagramPos + rxDatagramLen == rxBuffer.Length)
      && rxBufferPos + rxBufferLen <= rxBuffer.Length
      && (rxRecordLen > 0 ==> rxRecordPos + rxRecordLen <= rxDatagramPos)
    }

    lemma PlacesKept()
      requires Places() && rxFragQueueLen <= rxBuffer.Length && QueueStored()
      ensures Valid()
    {
    }

    lemma ValidAgain()
      requires Layout() && QueueStored()
      ensures Valid()
    {
    }

    lemma QueueReady()
      requires Reassembly.QueueInv(queue) && Stored(rxBuffer[..], rxFragQueueLen, queue)
      ensures QueueStored()
    {
    }

    /** The sending half is in order, and shares no memory with the receive buffer. */
    ghost predicate TxReady()
      reads tx, tx.txBuffer, tx.encryptionEngine.seqNum, tx.prevEncryptionEngine.seqNum
    {
      && tx.Valid() && tx.CanSend()
      && rxBuffer != tx.txBuffer && rxBuffer != tx.encryptionEngine.seqNum && rxBuffer != tx.prevEncryptionEngine.seqNum
    }

    /** The unread record starts with the octets of f, and ends where the datagram begins. */
    ghost predicate Heading(at: nat, f: Fragment)
      reads `rxRecordPos, `rxDatagramPos, rxBuffer
    {
      && f.WireSized()
      && at + |Encode(f)| == rxRecordPos <= rxDatagramPos
      && rxRecordPos <= rxBuffer.Length
      && rxBuffer[..][at..rxRecordPos] == Encode(f)
    }

    /** Reassembly and delivery of a fragment that has passed the filters. */
    method AcceptFragment(at: nat, ghost f: Fragment) returns (status: Status, complete: bool)
      requires Valid() && Heading(at, f) && rxBufferLen == 0
      requires Reassembly.Reassemble(queue, f, rxBuffer.Length - rxDatagramLen).Queued? ==>
        Apart(queue, f, at, UnreadPos(), rxBuffer.Length)
      modifies rxBuffer, `rxFragQueueLen, `queue, `rxBufferLen, `rxBufferPos, `rxMsgSeq
      ensures Valid()
      ensures Record() == old(Record()) && Datagram() == old(Datagram())
      ensures match Reassembly.Reassemble(old(queue), f, rxBuffer.Length - rxDatagramLen)
        case Rejected(e) =>
          status == FromReassembly(e) && !complete && queue == [] && rxMsgSeq == old(rxMsgSeq) && Pending() == []
        case Queued(q) =>
          && status == Ok && q != [] && (complete <==> Reassembly.Complete(q[0]))
          && (if complete then
                && queue == [] && rxMsgSeq == (old(rxMsgSeq) + 1) % 0x1_0000 && Pending() == Encode(q[0])
                && rxBuffer.Length > 0 && rxBuffer[0] == q[0].msgType
              else queue == q && rxMsgSeq == old(rxMsgSeq) && Pending() == [])
    {
      hide *;
      ghost var before := rxBuffer[..];
      ghost var r := Reassembly.Reassemble(queue, f, rxBuffer.Length - rxDatagramLen);
      PartsAhead(at, f, before);
      status, complete := AcceptInBuffer(at, f);
      PartsKept(before);
      if complete {
        PendingIs(r.queue[0]);
      }
    }

    /** Record and datagram lie behind the fragment. */
    lemma PartsAhead(at: nat, f: Fragment, before: seq<byte>)
      requires Layout() && Heading(at, f) && before == rxBuffer[..]
      ensures at + |Encode(f)| <= UnreadPos() <= rxBuffer.Length
      ensures rxRecordPos + rxRecordLen <= |before| && Record() == before[rxRecordPos..rxRecordPos + rxRecordLen]
      ensures rxDatagramPos + rxDatagramLen <= |before|
      ensures Datagram() == before[rxDatagramPos..rxDatagramPos + rxDatagramLen]
    {
    }

    lemma PartsKept(before: seq<byte>)
      requires Layout() && 0 <= UnreadPos() && SameFrom(before, rxBuffer[..], UnreadPos())
      ensures rxRecordPos + rxRecordLen <= |before| && Record() == before[rxRecordPos..rxRecordPos + rxRecordLen]
      ensures rxDatagramPos + rxDatagramLen <= |before|
      ensures Datagram() == before[rxDatagramPos..rxDatagramPos + rxDatagramLen]
      ensures rxBufferLen == 0 ==> Pending() == []
    {
      SliceKept(before, rxBuffer[..], UnreadPos(), rxRecordPos, rxRecordLen);
      SliceKept(before, rxBuffer[..], UnreadPos(), rxDatagramPos, rxDatagramLen);
    }

    lemma PendingIs(f: Fragment)
      requires Layout() && rxBufferPos == 0 && rxBufferLen == |Encode(f)| && rxBuffer[..][..rxBufferLen] == Encode(f)
      ensures Pending() == Encode(f) && rxBuffer.Length > 0 && rxBuffer[0] == f.msgType
    {
      TypeFirst(f, rxBuffer[..][..rxBufferLen]);
    }

    method AcceptInBuffer(at: nat, ghost f: Fragment) returns (status: Status, complete: bool)
      requires Valid() && Heading(at, f) && rxBufferLen == 0
      requires Reassembly.Reassemble(queue, f, rxBuffer.Length - rxDatagramLen).Queued? ==>
        Apart(queue, f, at, UnreadPos(), rxBuffer.Length)
      modifies rxBuffer, `rxFragQueueLen, `queue, `rxBufferLen, `rxBufferPos, `rxMsgSeq
      ensures Valid()
      ensures 0 <= UnreadPos() && SameFrom(old(rxBuffer[..]), rxBuffer[..], UnreadPos())
      ensures match Reassembly.Reassemble(old(queue), f, rxBuffer.Length - rxDatagramLen)
        case Rejected(e) =>
          && status == FromReassembly(e) && !complete && queue == [] && rxMsgSeq == old(rxMsgSeq) && rxBufferLen == 0
        case Queued(q) =>
          && status == Ok && q != [] && (complete <==> Reassembly.Complete(q[0]))
          && (if complete then
                && queue == [] && rxMsgSeq == (old(rxMsgSeq) + 1) % 0x1_0000
                && rxBufferPos == 0 && rxBufferLen == |Encode(q[0])| && rxBuffer[..][..rxBufferLen] == Encode(q[0])
              else queue == q && rxMsgSeq == old(rxMsgSeq) && rxBufferLen == 0)
    {
      hide *;
      complete := false;
      ghost var r := Reassembly.Reassemble(queue, f, rxBuffer.Length - rxDatagramLen);
      QueuedSome(queue, f, rxBuffer.Length - rxDatagramLen);
      HeadingPlace(at, f);
      AbstractFields();
      PartsAhead(at, f, rxBuffer[..]);
      status := ReassembleHandshakeMessage(at, f, UnreadPos());
      if status != Ok {
        RejectedStatus(r, status);
        FlushQueue();
        return;
      }
      AcceptedStatus(r);
      complete := DeliverComplete();
    }

    lemma RejectedStatus(r: Reassembly.Outcome, status: Status)
      requires status != Ok && match r case Queued(q) => status == Ok case Rejected(e) => status == FromReassembly(e)
      requires Valid()
      ensures r.Rejected? && Layout()
    {
    }

    lemma AcceptedStatus(r: Reassembly.Outcome)
      requires match r case Queued(q) => true case Rejected(e) => Ok == FromReassembly(e)
      ensures r.Queued?
    {
    }

    /** The completion test on the first entry, and what follows from it. */
    method DeliverComplete() returns (complete: bool)
      requires Valid() && queue != [] && rxBufferLen == 0
      modifies `rxFragQueueLen, `queue, `rxBufferLen, `rxBufferPos, `rxMsgSeq
      ensures Valid()
      ensures complete <==> Reassembly.Complete(old(queue)[0])
      ensures complete ==>
        && queue == [] && rxMsgSeq == (old(rxMsgSeq) + 1) % 0x1_0000 && rxBufferPos == 0
        && rxBufferLen == |Encode(old(queue)[0])| && rxBuffer[..][..rxBufferLen] == Encode(old(queue)[0])
      ensures !complete ==> queue == old(queue) && rxMsgSeq == old(rxMsgSeq) && rxBufferLen == 0
    {
      hide Encode, EncodeQueue, Load24, QueueStored;
      FirstEntry();
      complete := false;
      if Load24(rxBuffer[..], 6) == 0 && Load24(rxBuffer[..], 9) == Load24(rxBuffer[..], 1) {
        complete := true;
        rxBufferLen := Load24(rxBuffer[..], 1) + HEADER_LEN;
        rxBufferPos := 0;
        FlushQueue();
        rxMsgSeq := (rxMsgSeq + 1) % 0x1_0000;
      }
    }

    lemma FirstEntry()
      requires Valid() && queue != []
      ensures Load24(rxBuffer[..], 1) == queue[0].length && Load24(rxBuffer[..], 6) == queue[0].offset
      ensures Load24(rxBuffer[..], 9) == |queue[0].data| && |Encode(queue[0])| == HEADER_LEN + |queue[0].data|
      ensures |Encode(queue[0])| <= rxBuffer.Length && rxBuffer[..][..|Encode(queue[0])|] == Encode(queue[0])
    {
      assert queue[..0] == [];
      EntryAt(rxBuffer[..], rxFragQueueLen, queue, 0, 0);
      FirstStored(rxBuffer[..], rxFragQueueLen, queue);
    }

    /** Memory the calls may touch through the sending half is not the receive buffer. */
    ghost predicate Ready()
      ensures Ready() ==> Valid() && OthersReady()
      reads `rxFragQueueLen, `rxDatagramPos, `rxDatagramLen, `rxRecordPos, `rxRecordLen, `rxBufferPos, `rxBufferLen
      reads `queue, rxBuffer
      reads tx, tx.txBuffer, tx.encryptionEngine.seqNum, tx.prevEncryptionEngine.seqNum, window, window.words
    {
      Valid() && OthersReady()
    }

    ghost predicate OthersReady()
      ensures OthersReady() ==> TxReady() && window.Valid()
      reads tx, tx.txBuffer, tx.encryptionEngine.seqNum, tx.prevEncryptionEngine.seqNum, window, window.words
    {
      && TxReady() && window.Valid()
      && window.words as object != rxBuffer && window.words as object != tx.txBuffer
      && window.words as object != tx.encryptionEngine.seqNum
      && window.words as object != tx.prevEncryptionEngine.seqNum
    }

    /** A peer that repeats the last message of its flight makes this side repeat its own. */
    method AnswerRetransmission(now: nat)
      requires Ready()
      modifies tx`txBufferPos, tx`txDatagramLen, tx`packing, tx`emitted, tx`datagrams, tx`sent, tx.txBuffer
      modifies tx`retransmitCount, tx`retransmitTimestamp, tx.encryptionEngine.seqNum, tx.prevEncryptionEngine.seqNum
      ensures rxBuffer[..] == old(rxBuffer[..])
      ensures Ready()
      ensures if tx.txBufferLen > 0
              then tx.Repeated(old(tx.Timer()), old(FlightSpec.Flatten(tx.datagrams)), now, old(tx.Sure()))
              else tx.Timer() == old(tx.Timer()) && tx.sent == old(tx.sent)
    {
      hide Valid, Transmit.Transmitter.Repeated, Transmit.Transmitter.Valid, Transmit.Transmitter.CanSend,
           Transmit.Transmitter.Sure, Transmit.Transmitter.Expanded, Transmit.Transmitter.Begun, FlightSpec.Flatten,
           Replay.ReplayWindow.Valid;
      ghost var ok, ws := tx.RepeatFlight(now);
    }

    /** The fields of the fragment, where it stands. */
    lemma FieldsAt(at: nat, f: Fragment)
      requires Heading(at, f)
      ensures at + 12 <= rxBuffer.Length && rxBuffer[at] == f.msgType
      ensures Load24(rxBuffer[..], at + 1) == f.length && Load16(rxBuffer[..], at + 4) == f.msgSeq
      ensures Load24(rxBuffer[..], at + 6) == f.offset && Load24(rxBuffer[..], at + 9) == |f.data|
    {
      DecodeEncode(rxBuffer[..], at, f);
    }

    /** The tests in front of the reassembly. */
    method Screen(at: nat, ghost f: Fragment, now: nat, ghost s: RxState) returns (status: Status)
      requires Ready() && Heading(at, f) && s == Abstract()
      modifies `rxMsgSeq, `txMsgSeq
      modifies tx`txBufferPos, tx`txDatagramLen, tx`packing, tx`emitted, tx`base, tx`prevBase, tx`datagrams, tx`sent
      modifies tx`retransmitCount, tx`retransmitTimestamp
      modifies tx.txBuffer, tx.encryptionEngine.seqNum, tx.prevEncryptionEngine.seqNum
      ensures Ready()
      ensures status == Screened(s, f) && rxMsgSeq == Rebased(s, f).msgSeq && rxBuffer[..] == old(rxBuffer[..])
      ensures if Resends(s, f) && tx.txBufferLen > 0
              then tx.Repeated(old(tx.Timer()), old(FlightSpec.Flatten(tx.datagrams)), now, old(tx.Sure()))
              else tx.Timer() == old(tx.Timer()) && tx.sent == old(tx.sent)
      ensures if Rebases(s, f) && !FragmentLengthBad(f) then TookOver(f.msgSeq)
              else txMsgSeq == old(txMsgSeq) && tx.base == old(tx.base)
    {
      hide *;
      AbstractFields();
      FieldsAt(at, f);
      ScreenOutcome(s, f);
      var msgType, length, msgSeq := rxBuffer[at], Load24(rxBuffer[..], at + 1), Load16(rxBuffer[..], at + 4);
      var fragOffset, fragLength := Load24(rxBuffer[..], at + 6), Load24(rxBuffer[..], at + 9);
      if fragLength > length {
        return InvalidLength;
      }
      if fragLength == 0 && length != 0 {
        return InvalidLength;
      }
      if msgType == CLIENT_HELLO && tx.state == STATE_CLIENT_HELLO && tx.entity == Server {
        if epoch == 0 {
          TakeOverNumbering(msgSeq);
        }
      }
      if msgSeq < rxMsgSeq {
        AnswerRepeated(msgType, fragOffset, now);
        return InvalidSequenceNumber;
      } else if msgSeq > rxMsgSeq {
        return InvalidSequenceNumber;
      }
      if tx.state > STATE_SERVER_HELLO {
        if rxRecordVersion != TranslateVersion(version) {
          return VersionNotSupported;
        }
      }
      return Ok;
    }

    /** A message received before: if it may be the end of the peer's flight, answer it. */
    method AnswerRepeated(msgType: byte, fragOffset: nat, now: nat)
      requires Ready()
      modifies tx`txBufferPos, tx`txDatagramLen, tx`packing, tx`emitted, tx`datagrams, tx`sent, tx.txBuffer
      modifies tx`retransmitCount, tx`retransmitTimestamp, tx.encryptionEngine.seqNum, tx.prevEncryptionEngine.seqNum
      ensures rxBuffer[..] == old(rxBuffer[..])
      ensures Ready()
      ensures if EndsPeerFlight(msgType) && fragOffset == 0 && tx.txBufferLen > 0
              then tx.Repeated(old(tx.Timer()), old(FlightSpec.Flatten(tx.datagrams)), now, old(tx.Sure()))
              else tx.Timer() == old(tx.Timer()) && tx.sent == old(tx.sent)
    {
      hide Ready, Transmit.Transmitter.Repeated;
      if msgType == CLIENT_HELLO || msgType == SERVER_HELLO_DONE || msgType == FINISHED {
        if fragOffset == 0 {
          AnswerRetransmission(now);
        }
      }
    }

    /** Record and message numbers of the own side start where those of a first ClientHello are. */
    ghost predicate TookOver(msgSeq: nat)
      ensures TookOver(msgSeq) ==> txMsgSeq == msgSeq
      reads `txMsgSeq, tx`encryptionEngine, tx.encryptionEngine.seqNum, window`right
    {
      && tx.encryptionEngine.seqNum.Length == 6
      && SequenceNumber.Value(tx.encryptionEngine.seqNum) == window.right && txMsgSeq == msgSeq
    }

    lemma RightEdge()
      requires OthersReady()
      ensures 0 <= window.right < SequenceNumber.MODULUS && tx.encryptionEngine.seqNum.Length == 6
    {
    }

    method TakeOverNumbering(msgSeq: nat)
      requires Ready()
      modifies `rxMsgSeq, `txMsgSeq
      modifies tx`emitted, tx`base, tx`prevBase, tx.encryptionEngine.seqNum
      ensures rxBuffer[..] == old(rxBuffer[..])
      ensures Ready() && rxMsgSeq == msgSeq && TookOver(msgSeq)
    {
      hide Valid, Transmit.Transmitter.Valid, Transmit.Transmitter.CanSend, Replay.ReplayWindow.Valid;
      RightEdge();
      tx.Rebase(window.right);
      rxMsgSeq := msgSeq;
      txMsgSeq := msgSeq;
    }

    /** Behind the framing tests of dtlsProcessRecord: one handshake fragment. */
    method ProcessFragment(at: nat, ghost f: Fragment, now: nat) returns (status: Status)
      requires Ready() && Heading(at, f) && rxBufferLen == 0
      requires ClearOfQueue(Abstract(), f, at, rxBuffer.Length)
      modifies rxBuffer, `rxFragQueueLen, `queue, `rxBufferLen, `rxBufferPos, `rxMsgSeq, `txMsgSeq
      modifies tx`txBufferPos, tx`txDatagramLen, tx`packing, tx`emitted, tx`base, tx`prevBase, tx`datagrams, tx`sent
      modifies tx`retransmitCount, tx`retransmitTimestamp, tx`txBufferLen, tx`flight
      modifies tx.txBuffer, tx.encryptionEngine.seqNum, tx.prevEncryptionEngine.seqNum
      ensures Ready()
      ensures var r := ReceiveSpec.ProcessFragment(old(Abstract()), f, rxBuffer.Length);
        Abstract() == r.next && status == r.status
      ensures if Resends(old(Abstract()), f) && old(tx.txBufferLen) > 0
              then tx.Repeated(old(tx.Timer()), old(FlightSpec.Flatten(tx.datagrams)), now, old(tx.Sure()))
              else tx.Timer() == old(tx.Timer()) && tx.sent == old(tx.sent)
      ensures if ReceiveSpec.ProcessFragment(old(Abstract()), f, rxBuffer.Length).effect.flightDone
              then tx.flight == [] && tx.txBufferLen == 0
              else tx.flight == old(tx.flight) && tx.txBufferLen == old(tx.txBufferLen)
      ensures if Rebases(old(Abstract()), f) && !FragmentLengthBad(f) then TookOver(f.msgSeq)
              else txMsgSeq == old(txMsgSeq) && tx.base == old(tx.base)
    {
      hide *;
      ghost var s := Abstract();
      AbstractFields();
      HeadingPlace(at, f);
      FragmentCases(s, f, at, rxBuffer.Length);
      status := ScreenFragment(at, f, now, s);
      AbstractFields();
      if status != Ok {
        return;
      }
      status := AcceptAndFinish(at, f, Rebased(s, f));
    }

    method ScreenFragment(at: nat, ghost f: Fragment, now: nat, ghost s: RxState) returns (status: Status)
      requires Ready() && Heading(at, f) && s == Abstract()
      modifies `rxMsgSeq, `txMsgSeq
      modifies tx`txBufferPos, tx`txDatagramLen, tx`packing, tx`emitted, tx`base, tx`prevBase, tx`datagrams, tx`sent
      modifies tx`retransmitCount, tx`retransmitTimestamp
      modifies tx.txBuffer, tx.encryptionEngine.seqNum, tx.prevEncryptionEngine.seqNum
      ensures Ready() && Heading(at, f) && Abstract() == Rebased(s, f) && status == Screened(s, f)
      ensures if Resends(s, f) && tx.txBufferLen > 0
              then tx.Repeated(old(tx.Timer()), old(FlightSpec.Flatten(tx.datagrams)), now, old(tx.Sure()))
              else tx.Timer() == old(tx.Timer()) && tx.sent == old(tx.sent)
      ensures if Rebases(s, f) && !FragmentLengthBad(f) then TookOver(f.msgSeq)
              else txMsgSeq == old(txMsgSeq) && tx.base == old(tx.base)
    {
      hide *;
      AbstractFields();
      HeadingPlace(at, f);
      ScreenOutcome(s, f);
      status := Screen(at, f, now, s);
      AbstractMoved(s);
      NowRebased(s, f);
      HeadingStays(at, f);
    }

    /** Nothing but the message number has changed. */
    lemma AbstractMoved(s: RxState)
      requires Layout() && s.entity == tx.entity && s.state == tx.state && s.version == version && s.epoch == epoch
      requires s.queue == queue && s.contentType == rxBufferType && s.recordVersion == rxRecordVersion
      requires s.record == rxBuffer[..][rxRecordPos..rxRecordPos + rxRecordLen]
      requires s.datagram == rxBuffer[..][rxDatagramPos..rxDatagramPos + rxDatagramLen]
      requires s.pending == rxBuffer[..][rxBufferPos..rxBufferPos + rxBufferLen]
      ensures Abstract() == s.(msgSeq := rxMsgSeq)
    {
    }

    lemma NowRebased(s: RxState, f: Fragment)
      requires Layout() && Abstract() == s.(msgSeq := rxMsgSeq) && rxMsgSeq == Rebased(s, f).msgSeq
      ensures Abstract() == Rebased(s, f)
    {
      hide Abstract, Layout;
    }

    lemma HeadingStays(at: nat, f: Fragment)
      requires f.WireSized() && at + |Encode(f)| == rxRecordPos <= rxDatagramPos && rxRecordPos <= rxBuffer.Length
      requires rxBuffer[..][at..rxRecordPos] == Encode(f)
      ensures Heading(at, f)
    {
    }

    /** A screened fragment: reassembly, delivery, and the end of the own flight. */
    method AcceptAndFinish(at: nat, ghost f: Fragment, ghost s: RxState) returns (status: Status)
      requires Ready() && Heading(at, f) && rxBufferLen == 0 && s == Abstract()
      requires Reassembly.Reassemble(queue, f, rxBuffer.Length - rxDatagramLen).Queued? ==>
        Apart(queue, f, at, UnreadPos(), rxBuffer.Length)
      modifies rxBuffer, `rxFragQueueLen, `queue, `rxBufferLen, `rxBufferPos, `rxMsgSeq, tx`txBufferLen, tx`flight
      ensures Ready()
      ensures Abstract() == Accept(s, f, rxBuffer.Length).next && status == Accept(s, f, rxBuffer.Length).status
      ensures if Accept(s, f, rxBuffer.Length).effect.flightDone
              then tx.flight == [] && tx.txBufferLen == 0
              else tx.flight == old(tx.flight) && tx.txBufferLen == old(tx.txBufferLen)
      ensures old(TookOver(txMsgSeq)) ==> TookOver(txMsgSeq)
    {
      hide Accept, Valid, EndsFlight, Heading, Apart, Reassembly.Reassemble, Record, Datagram, Pending;
      var complete;
      status, complete := AcceptOnValue(at, f, s);
      if complete {
        if EndsFlight(rxBuffer[0]) {
          EndFlight(Abstract());
        }
      }
    }

    /** The reassembly of a screened fragment moves the abstract state as it should. */
    method AcceptOnValue(at: nat, ghost f: Fragment, ghost s: RxState) returns (status: Status, complete: bool)
      requires Valid() && Heading(at, f) && rxBufferLen == 0 && s == Abstract()
      requires Reassembly.Reassemble(queue, f, rxBuffer.Length - rxDatagramLen).Queued? ==>
        Apart(queue, f, at, UnreadPos(), rxBuffer.Length)
      modifies rxBuffer, `rxFragQueueLen, `queue, `rxBufferLen, `rxBufferPos, `rxMsgSeq
      ensures Valid()
      ensures Abstract() == Accept(s, f, rxBuffer.Length).next && status == Accept(s, f, rxBuffer.Length).status
      ensures complete ==> rxBuffer.Length > 0
      ensures Accept(s, f, rxBuffer.Length).effect.flightDone <==> complete && EndsFlight(rxBuffer[0])
    {
      hide *;
      AbstractFields();
      AcceptOutcome(s, f, rxBuffer.Length);
      status, complete := AcceptFragment(at, f);
      AbstractFields();
    }

    /** The abstract state, field by field. */
    lemma AbstractFields()
      requires Layout()
      ensures Abstract() == RxState(tx.entity, tx.state, version, epoch, queue, rxMsgSeq, rxBufferType, rxRecordVersion,
                                    Record(), Datagram(), Pending())
      ensures Record() == rxBuffer[..][rxRecordPos..rxRecordPos + rxRecordLen]
      ensures Datagram() == rxBuffer[..][rxDatagramPos..rxDatagramPos + rxDatagramLen]
      ensures Pending() == rxBuffer[..][rxBufferPos..rxBufferPos + rxBufferLen]
      ensures rxRecordPos + rxRecordLen <= rxBuffer.Length && rxDatagramPos + rxDatagramLen <= rxBuffer.Length
      ensures rxBufferPos + rxBufferLen <= rxBuffer.Length
      ensures rxRecordLen > 0 ==> rxRecordPos + rxRecordLen <= rxDatagramPos
      ensures Unread(Abstract(), rxRecordPos, rxBuffer.Length) == UnreadPos()
    {
    }

    lemma HeadingPlace(at: nat, f: Fragment)
      requires Heading(at, f)
      ensures at + |Encode(f)| == rxRecordPos <= rxDatagramPos && rxRecordPos <= rxBuffer.Length && f.WireSized()
      ensures rxBuffer[..][at..rxRecordPos] == Encode(f)
    {
    }

    /** The handshake branch of dtlsProcessRecord. */
    method ProcessHandshake(now: nat, ghost s: RxState) returns (status: Status)
      requires Ready() && rxRecordLen > 0 && rxBufferLen == 0 && s == Abstract()
      requires s.contentType == TYPE_HANDSHAKE && Clear(s, rxRecordPos, rxBuffer.Length)
      modifies rxBuffer, `rxFragQueueLen, `queue, `rxBufferLen, `rxBufferPos, `rxMsgSeq, `txMsgSeq, `rxRecordPos
      modifies `rxRecordLen
      modifies tx`txBufferPos, tx`txDatagramLen, tx`packing, tx`emitted, tx`base, tx`prevBase, tx`datagrams, tx`sent
      modifies tx`retransmitCount, tx`retransmitTimestamp, tx`txBufferLen, tx`flight
      modifies tx.txBuffer, tx.encryptionEngine.seqNum, tx.prevEncryptionEngine.seqNum
      ensures Ready() && rxRecordPos == NextPlace(s, old(rxRecordPos), rxBuffer.Length)
      ensures var r := ReceiveSpec.ProcessHandshake(s, rxBuffer.Length);
        && Abstract() == r.next && status == r.status
        && (if r.effect.resend && old(tx.txBufferLen) > 0
            then tx.Repeated(old(tx.Timer()), old(FlightSpec.Flatten(tx.datagrams)), now, old(tx.Sure()))
            else tx.Timer() == old(tx.Timer()) && tx.sent == old(tx.sent))
        && (if r.effect.rebase then TookOver(Front(s.record).msgSeq)
            else txMsgSeq == old(txMsgSeq) && tx.base == old(tx.base))
        && (if r.effect.flightDone then tx.flight == [] && tx.txBufferLen == 0
            else tx.flight == old(tx.flight) && tx.txBufferLen == old(tx.txBufferLen))
    {
      hide *;
      AbstractFields();
      QueueIsGapped();
      PlaceBehind(s, rxRecordPos, rxBuffer.Length);
      ghost var place := rxRecordPos;
      var framed, at := TakeFramed(s);
      AbstractFields();
      if !framed {
        UnframedResult(s, rxBuffer.Length);
        return InvalidLength;
      }
      FramedResult(s, place, rxBuffer.Length);
      status := ProcessFragment(at, Front(s.record), now);
    }

    lemma QueueIsGapped()
      requires Ready()
      ensures Reassembly.Gapped(Abstract().queue)
    {
    }

    method TakeFramed(ghost s: RxState) returns (framed: bool, at: nat)
      requires Ready() && rxRecordLen > 0 && s == Abstract()
      modifies `rxRecordPos, `rxRecordLen
      ensures Ready() && at == old(rxRecordPos) && (framed <==> Framed(s.record))
      ensures Abstract() == s.(record := BehindFront(s.record))
      ensures framed ==> Heading(at, Front(s.record))
      ensures rxRecordPos == if framed then at + |Encode(Front(s.record))| else at
    {
      assert s.record == Record();
      hide Valid, OthersReady, Heading, Framed, Record, Datagram, Pending, Front, BehindFront;
      framed, at := TakeWhole(s.record);
    }

    /** The framing tests: the record is dropped, or a whole fragment is taken from it. */
    method TakeWhole(ghost record: seq<byte>) returns (framed: bool, at: nat)
      requires Valid() && rxRecordLen > 0 && record == Record()
      modifies `rxRecordPos, `rxRecordLen
      ensures Valid() && at == old(rxRecordPos) && (framed <==> Framed(record))
      ensures Record() == BehindFront(record)
      ensures Datagram() == old(Datagram()) && Pending() == old(Pending())
      ensures framed ==> Heading(at, Front(record))
      ensures rxRecordPos == if framed then at + |Encode(Front(record))| else at
    {
      hide Encode, EncodeQueue, QueueStored, Front, BehindFront, Heading;
      at := rxRecordPos;
      RecordFrame(rxBuffer[..], rxRecordPos, rxRecordLen, record);
      if rxRecordLen < HEADER_LEN {
        DropRecord();
        return false, at;
      }
      var fragLength := Load24(rxBuffer[..], rxRecordPos + 9) + HEADER_LEN;
      hide Framed, Load24;
      if fragLength > rxRecordLen {
        DropRecord();
        return false, at;
      }
      TakeFragment(fragLength, record);
      return true, at;
    }

    /** Moves on behind the fragment the record starts with. */
    method TakeFragment(fragLength: nat, ghost record: seq<byte>)
      requires Valid() && record == Record() && Framed(record)
      requires fragLength == |Encode(Front(record))| && rxRecordLen > 0
      modifies `rxRecordPos, `rxRecordLen
      ensures Valid() && Heading(old(rxRecordPos), Front(record))
      ensures rxRecordPos == old(rxRecordPos) + |Encode(Front(record))|
      ensures Record() == BehindFront(record)
      ensures Datagram() == old(Datagram()) && Pending() == old(Pending())
    {
      FrontOctets(record);
      assert |record| == rxRecordLen;
      hide Encode, EncodeQueue, Framed, Front, BehindFront, QueueStored;
      PassFragment(fragLength, Front(record), record);
    }

    method PassFragment(fragLength: nat, ghost f: Fragment, ghost record: seq<byte>)
      requires Layout() && record == Record() && fragLength == |Encode(f)| <= rxRecordLen && f.WireSized()
      requires rxRecordLen > 0 && record[0..fragLength] == Encode(f)
      modifies `rxRecordPos, `rxRecordLen
      ensures Layout() && Heading(old(rxRecordPos), f) && rxRecordPos == old(rxRecordPos) + fragLength
      ensures Record() == record[fragLength..]
      ensures Datagram() == old(Datagram()) && Pending() == old(Pending())
    {
      hide Encode;
      SplitRecord(rxBuffer[..], rxRecordPos, rxRecordLen, fragLength);
      rxRecordPos := rxRecordPos + fragLength;
      rxRecordLen := rxRecordLen - fragLength;
    }

    /** The other branch of dtlsProcessRecord. The copy to the front of the buffer is defined
        only for a record that lies behind its destination. */
    method ProcessOther(ghost s: RxState) returns (status: Status)
      requires Ready() && rxBufferLen == 0 && s == Abstract() && s.contentType != TYPE_HANDSHAKE
      requires HandsUp(s) ==> rxRecordLen <= rxRecordPos
      modifies rxBuffer, `rxFragQueueLen, `queue, `rxBufferLen, `rxBufferPos, `rxRecordLen, tx`txBufferLen, tx`flight
      ensures Ready() && OtherDone(s, status, old(tx.flight), old(tx.txBufferLen))
      ensures status == Ok <==> HandsUp(s)
      ensures HandsUp(s) ==> Abstract() == s.(pending := s.record, record := [], queue := [])
      ensures if s.contentType == 23 && s.state == 30 then tx.flight == [] && tx.txBufferLen == 0
              else tx.flight == old(tx.flight) && tx.txBufferLen == old(tx.txBufferLen)
    {
      hide *;
      OtherFields(s);
      OtherOutcome(s);
      ghost var flight, flightLen := tx.flight, tx.txBufferLen;
      if rxBufferType == TYPE_CHANGE_CIPHER_SPEC {
        status := ProcessChangeCipherSpec(s);
      } else if rxBufferType == TYPE_ALERT {
        status := ProcessAlert(s);
      } else if rxBufferType == TYPE_APPLICATION_DATA {
        status := ProcessApplicationData(s);
      } else {
        Discard(s);
        status := UnexpectedMessage;
        UnknownDropped(s);
        DroppedOther(s, status, tx.flight, tx.txBufferLen);
      }
      OtherMeans(s, status, flight, flightLen);
    }

    /** The state and the flight are as the value-level step says. */
    ghost predicate OtherDone(s: RxState, status: Status, flight: seq<FlightSpec.Record>, flightLen: nat)
      requires Layout()
      reads this, rxBuffer, tx`state, tx`flight, tx`txBufferLen
    {
      var r := ReceiveSpec.ProcessOther(s);
      && Abstract() == r.next && status == r.status
      && if r.effect.flightDone then tx.flight == [] && tx.txBufferLen == 0
         else tx.flight == flight && tx.txBufferLen == flightLen
    }

    lemma OtherCases(s: RxState)
      ensures s.contentType != TYPE_HANDSHAKE ==> (ReceiveSpec.ProcessOther(s).status == Ok <==> HandsUp(s))
    {
    }

    lemma OtherFields(s: RxState)
      requires Ready() && s == Abstract()
      ensures |s.record| == rxRecordLen && s.contentType == rxBufferType && s.recordVersion == rxRecordVersion
      ensures s.version == version && s.state == tx.state && s.entity == tx.entity
    {
    }

    lemma DroppedOther(s: RxState, status: Status, flight: seq<FlightSpec.Record>, flightLen: nat)
      requires Layout() && Abstract() == s.(record := []) && tx.flight == flight && tx.txBufferLen == flightLen
      requires ReceiveSpec.ProcessOther(s) == Dropped(s, status)
      ensures OtherDone(s, status, flight, flightLen)
    {
    }

    method ProcessChangeCipherSpec(ghost s: RxState) returns (status: Status)
      requires Ready() && rxBufferLen == 0 && s == Abstract() && rxBufferType == TYPE_CHANGE_CIPHER_SPEC
      requires ReceiveSpec.ProcessOther(s).status == Ok ==> rxRecordLen <= rxRecordPos
      modifies rxBuffer, `rxFragQueueLen, `queue, `rxBufferLen, `rxBufferPos, `rxRecordLen
      ensures Ready() && OtherDone(s, status, old(tx.flight), old(tx.txBufferLen))
    {
      OtherFields(s);
      hide Ready, Valid, OthersReady, Layout, Record, Datagram, Pending, Abstract;
      if rxRecordLen < CHANGE_CIPHER_SPEC_LEN {
        Discard(s);
        return InvalidLength;
      }
      var expected :=
        if tx.entity == Client then STATE_SERVER_CHANGE_CIPHER_SPEC else STATE_CLIENT_CHANGE_CIPHER_SPEC;
      if tx.state != expected {
        Discard(s);
        return UnexpectedMessage;
      }
      if rxRecordVersion != TranslateVersion(version) {
        return VersionNotSupported;
      }
      HandUp(s);
      return Ok;
    }

    method ProcessAlert(ghost s: RxState) returns (status: Status)
      requires Ready() && rxBufferLen == 0 && s == Abstract() && rxBufferType == TYPE_ALERT
      requires ReceiveSpec.ProcessOther(s).status == Ok ==> rxRecordLen <= rxRecordPos
      modifies rxBuffer, `rxFragQueueLen, `queue, `rxBufferLen, `rxBufferPos, `rxRecordLen
      ensures Ready() && OtherDone(s, status, old(tx.flight), old(tx.txBufferLen))
    {
      OtherFields(s);
      hide Ready, Valid, OthersReady, Layout, Record, Datagram, Pending, Abstract;
      if rxRecordLen < ALERT_LEN {
        Discard(s);
        return InvalidLength;
      }
      HandUp(s);
      return Ok;
    }

    method ProcessApplicationData(ghost s: RxState) returns (status: Status)
      requires Ready() && rxBufferLen == 0 && s == Abstract() && rxBufferType == TYPE_APPLICATION_DATA
      requires ReceiveSpec.ProcessOther(s).status == Ok ==> rxRecordLen <= rxRecordPos
      modifies rxBuffer, `rxFragQueueLen, `queue, `rxBufferLen, `rxBufferPos, `rxRecordLen, tx`txBufferLen, tx`flight
      ensures Ready() && OtherDone(s, status, old(tx.flight), old(tx.txBufferLen))
    {
      OtherFields(s);
      hide Ready, Valid, OthersReady, Layout, Record, Datagram, Pending, Abstract;
      if tx.state != STATE_APPLICATION_DATA {
        Discard(s);
        return UnexpectedMessage;
      }
      EndFlight(s);
      if rxRecordVersion != TranslateVersion(version) {
        return VersionNotSupported;
      }
      HandUp(s);
      return Ok;
    }

    method Discard(ghost s: RxState)
      requires Ready() && s == Abstract()
      modifies `rxRecordLen
      ensures Ready() && Abstract() == s.(record := [])
    {
      hide Valid, TxReady, Record, Datagram, Pending;
      DropRecord();
    }

    method EndFlight(ghost s: RxState)
      requires Ready() && s == Abstract()
      modifies tx`txBufferLen, tx`flight
      ensures Ready() && Abstract() == s && tx.flight == [] && tx.txBufferLen == 0
    {
      hide Valid;
      tx.DropFlight();
    }

    method HandUp(ghost s: RxState)
      requires Ready() && s == Abstract() && rxRecordLen <= rxRecordPos
      modifies rxBuffer, `rxFragQueueLen, `queue, `rxBufferLen, `rxBufferPos, `rxRecordLen
      ensures Ready() && Abstract() == s.(pending := s.record, record := [], queue := [])
    {
      hide Valid, Record, Datagram, Pending;
      DeliverRecord();
    }

    /** The record moves to the front of the buffer; the reassembly queue is flushed. */
    method DeliverRecord()
      requires Valid() && rxRecordLen <= rxRecordPos
      modifies rxBuffer, `rxFragQueueLen, `queue, `rxBufferLen, `rxBufferPos, `rxRecordLen
      ensures Valid() && queue == [] && Record() == []
      ensures Pending() == old(Record()) && Datagram() == old(Datagram())
    {
      hide QueueStored;
      ghost var record, datagram := Record(), Datagram();
      rxBufferLen := rxRecordLen;
      rxBufferPos := 0;
      CopyRecord(record, datagram);
      rxRecordLen := 0;
      FlushQueue();
      assert Pending() == record;
    }

    method CopyRecord(ghost record: seq<byte>, ghost datagram: seq<byte>)
      requires Layout() && rxRecordLen <= rxRecordPos && rxBufferPos == 0 && rxBufferLen == rxRecordLen
      requires record == Record() && datagram == Datagram()
      modifies rxBuffer
      ensures Pending() == record && Datagram() == datagram
    {
      hide *;
      ghost var before := rxBuffer[..];
      AbstractFields();
      Memcpy(rxBuffer, 0, rxRecordPos, rxRecordLen);
      CopiedToFront(before, rxBuffer[..], rxRecordPos, rxRecordLen, rxDatagramPos, rxDatagramLen);
      AbstractFields();
    }

    /** Every call of dtlsProcessRecord does to the buffer what the value-level step says. */
    method ProcessRecord(now: nat, ghost s: RxState) returns (status: Status)
      requires Ready() && rxRecordLen > 0 && rxBufferLen == 0 && s == Abstract()
      requires Clear(s, rxRecordPos, rxBuffer.Length)
      modifies rxBuffer, `rxFragQueueLen, `queue, `rxBufferLen, `rxBufferPos, `rxMsgSeq, `txMsgSeq, `rxRecordPos
      modifies `rxRecordLen
      modifies tx`txBufferPos, tx`txDatagramLen, tx`packing, tx`emitted, tx`base, tx`prevBase, tx`datagrams, tx`sent
      modifies tx`retransmitCount, tx`retransmitTimestamp, tx`txBufferLen, tx`flight
      modifies tx.txBuffer, tx.encryptionEngine.seqNum, tx.prevEncryptionEngine.seqNum
      ensures Ready() && rxRecordPos == NextPlace(s, old(rxRecordPos), rxBuffer.Length)
      ensures var r := ReceiveSpec.ProcessRecord(s, rxBuffer.Length);
        && Abstract() == r.next && status == r.status
        && (if r.effect.resend && old(tx.txBufferLen) > 0
            then tx.Repeated(old(tx.Timer()), old(FlightSpec.Flatten(tx.datagrams)), now, old(tx.Sure()))
            else tx.Timer() == old(tx.Timer()) && tx.sent == old(tx.sent))
        && (if r.effect.rebase then TookOver(Front(s.record).msgSeq)
            else txMsgSeq == old(txMsgSeq) && tx.base == old(tx.base))
        && (if r.effect.flightDone then tx.flight == [] && tx.txBufferLen == 0
            else tx.flight == old(tx.flight) && tx.txBufferLen == old(tx.txBufferLen))
    {
      hide *;
      AbstractFields();
      QueueIsGapped();
      RecordCases(s, rxRecordPos, rxBuffer.Length);
      OtherCases(s);
      if rxBufferType == TYPE_HANDSHAKE {
        status := ProcessHandshake(now, s);
        return;
      }
      ghost var flight, flightLen := tx.flight, tx.txBufferLen;
      status := ProcessOther(s);
      OtherMeans(s, status, flight, flightLen);
    }

    lemma OtherMeans(s: RxState, status: Status, flight: seq<FlightSpec.Record>, flightLen: nat)
      requires Layout() && OtherDone(s, status, flight, flightLen)
      ensures var r := ReceiveSpec.ProcessOther(s);
        && Abstract() == r.next && status == r.status
        && (if r.effect.flightDone then tx.flight == [] && tx.txBufferLen == 0
            else tx.flight == flight && tx.txBufferLen == flightLen)
    {
    }

    // ----- dtlsReadRecord -----

    /** The raw record, header included, stands right in front of the rest of the datagram. */
    ghost predicate Raw(at: nat, raw: seq<byte>)
      reads `rxRecordPos, `rxDatagramPos, rxBuffer
    {
      && RECORD_HEADER_LEN <= |raw| && at + |raw| == rxDatagramPos <= rxBuffer.Length
      && rxRecordPos == at + RECORD_HEADER_LEN
      && rxBuffer[..][at..rxDatagramPos] == raw
    }

    /** The record in front of the datagram is opened as the value-level step says, with the
        verdict of the plain set of record numbers accepted so far; the window takes the
        number over exactly when the record is taken. A wrong record version is not an error:
        the status of that test is overwritten by the replay check. */
    method ReadRecord(ghost s: RxState) returns (status: Status)
      requires Ready() && rxRecordLen == 0 && rxBufferLen == 0 && s == Abstract() && NeverLengthens(decryptor)
      requires rxFragQueueLen <= rxDatagramPos
      modifies rxBuffer, `rxDatagramPos, `rxDatagramLen, `rxRecordPos, `rxRecordLen, `rxRecordVersion, `rxBufferType
      modifies window, window.words
      ensures Ready() && window.enabled == old(window.enabled)
      ensures var v := old(window.Abstract());
        var unseen := v.Passes(window.size, window.enabled, SeqNum(s.datagram));
        var (next, verdict, taken) := ReceiveSpec.ReadRecord(s, decryptor, unseen);
        && Abstract() == next && status == verdict
        && window.Abstract() == if taken then v.Validated(SeqNum(s.datagram)) else v
      ensures rxRecordPos ==
        if RecordFramed(s.datagram) then old(rxDatagramPos) + RECORD_HEADER_LEN else old(rxRecordPos)
      ensures rxDatagramPos >= old(rxDatagramPos)
    {
      hide *;
      ghost var v := window.Abstract();
      ghost var unseen := v.Passes(window.size, window.enabled, SeqNum(s.datagram));
      ReadCases(s, decryptor, unseen);
      Lengths(s);
      FramedLength(s.datagram);
      var framed, at := NextRecord(s);
      if !framed {
        WindowStill(v);
        return InvalidLength;
      }
      WindowStill(v);
      ghost var n := RECORD_HEADER_LEN + Load16(s.datagram, 11);
      status := ReadFramed(at, s.datagram[..n], s.(datagram := s.datagram[n..]));
    }

    lemma FramedLength(d: seq<byte>)
      ensures RecordFramed(d) ==> RECORD_HEADER_LEN == 13 <= |d| && RECORD_HEADER_LEN + Load16(d, 11) <= |d|
    {
    }

    twostate lemma WindowStill(v: Replay.View)
      requires v == old(window.Abstract()) && unchanged(window) && unchanged(window.words)
      ensures window.Abstract() == v
    {
    }

    method ReadFramed(at: nat, ghost raw: seq<byte>, ghost s: RxState) returns (status: Status)
      requires Ready() && rxRecordLen == 0 && rxBufferLen == 0 && s == Abstract() && NeverLengthens(decryptor)
      requires Raw(at, raw) && |raw| == RECORD_HEADER_LEN + Load16(raw, 11) && rxFragQueueLen <= at
      modifies rxBuffer, `rxRecordLen, `rxRecordVersion, `rxBufferType, window, window.words
      ensures Ready() && window.enabled == old(window.enabled)
      ensures var v := old(window.Abstract());
        var unseen := v.Passes(window.size, window.enabled, Load48(raw, 5));
        var (next, verdict, taken) := ReadRaw(s, raw, decryptor, unseen);
        && Abstract() == next && status == verdict
        && window.Abstract() == if taken then v.Validated(Load48(raw, 5)) else v
      ensures at + |raw| == rxDatagramPos && rxRecordPos == at + RECORD_HEADER_LEN
      ensures rxRecordLen + RECORD_HEADER_LEN <= |raw|
    {
      hide *;
      AbstractFields();
      RawPlace(at, raw);
      ghost var v, plain := window.Abstract(), Unprotected(raw, decryptor);
      RawOutcome(s, raw, decryptor, v.Passes(window.size, window.enabled, Load48(raw, 5)));
      if Load16(rxBuffer[..], at + 3) != epoch {
        return InvalidEpoch;
      }
      var seqNum := Load48(rxBuffer[..], at + 5);
      var unseen := CheckNumber(at, raw, seqNum, s);
      if !unseen {
        return InvalidSequenceNumber;
      }
      var forged := Unprotect(at, raw, s);
      if forged {
        return DecryptionFailed;
      }
      if !decryptor.isNull && Load16(rxBuffer[..], at + 11) > MAX_RECORD_LENGTH {
        return RecordOverflow;
      }
      TakeOver(at, raw, plain.plaintext, seqNum, s);
      return Ok;
    }

    lemma RawPlace(at: nat, raw: seq<byte>)
      requires Raw(at, raw)
      ensures at + |raw| == rxDatagramPos <= rxBuffer.Length && rxRecordPos == at + RECORD_HEADER_LEN
      ensures 13 == RECORD_HEADER_LEN <= |raw|
      ensures Load16(rxBuffer[..], at + 3) == Load16(raw, 3)
      ensures Load48(rxBuffer[..], at + 5) == Load48(raw, 5) < SequenceNumber.MODULUS
    {
      SliceLoad16(rxBuffer[..], at, |raw|, 3);
      SliceLoad48(rxBuffer[..], at, |raw|, 5);
    }

    method NextRecord(ghost s: RxState) returns (framed: bool, at: nat)
      requires Ready() && rxRecordLen == 0 && rxBufferLen == 0 && s == Abstract()
      modifies `rxDatagramPos, `rxDatagramLen, `rxRecordPos
      ensures Ready() && (framed <==> RecordFramed(s.datagram))
      ensures Abstract() ==
        s.(datagram := if framed then s.datagram[RECORD_HEADER_LEN + Load16(s.datagram, 11)..] else [])
      ensures framed ==> Raw(at, s.datagram[..RECORD_HEADER_LEN + Load16(s.datagram, 11)])
      ensures at == old(rxDatagramPos)
      ensures rxDatagramLen <= old(rxDatagramLen) && rxDatagramPos >= old(rxDatagramPos)
      ensures rxRecordPos == if framed then at + RECORD_HEADER_LEN else old(rxRecordPos)
    {
      hide *;
      AbstractFields();
      NothingUnread();
      framed, at := TakeRecord(s.datagram);
      ReadyStill();
      NowTaken(s);
    }

    /** Changes of the own places leave the sending half and the window in order. */
    twostate lemma ReadyStill()
      requires old(Ready()) && Valid() && unchanged(tx) && unchanged(tx.txBuffer)
      requires unchanged(tx.encryptionEngine.seqNum) && unchanged(tx.prevEncryptionEngine.seqNum)
      requires unchanged(window) && unchanged(window.words)
      ensures Ready()
    {
      hide Valid, TxReady, Replay.ReplayWindow.Valid;
    }

    /** Nothing but the datagram has changed. */
    lemma NowTaken(s: RxState)
      requires Valid() && s.entity == tx.entity && s.state == tx.state && s.version == version && s.epoch == epoch
      requires s.queue == queue && s.contentType == rxBufferType && s.recordVersion == rxRecordVersion
      requires s.msgSeq == rxMsgSeq && s.record == Record() && s.pending == Pending()
      ensures Abstract() == s.(datagram := Datagram())
    {
      hide Record, Datagram, Pending;
    }

    lemma NothingUnread()
      requires Layout()
      ensures rxRecordLen == 0 ==> Record() == []
      ensures rxBufferLen == 0 ==> Pending() == []
    {
    }

    /** The framing tests: the datagram is dropped, or a whole record is taken from it. */
    method TakeRecord(ghost datagram: seq<byte>) returns (framed: bool, at: nat)
      requires Valid() && rxRecordLen == 0 && rxBufferLen == 0 && datagram == Datagram()
      modifies `rxDatagramPos, `rxDatagramLen, `rxRecordPos
      ensures Valid() && (framed <==> RecordFramed(datagram))
      ensures Record() == [] && Pending() == []
      ensures Datagram() == if framed then datagram[RECORD_HEADER_LEN + Load16(datagram, 11)..] else []
      ensures framed ==> Raw(at, datagram[..RECORD_HEADER_LEN + Load16(datagram, 11)])
      ensures at == old(rxDatagramPos)
      ensures rxDatagramLen <= old(rxDatagramLen) && rxDatagramPos >= old(rxDatagramPos)
      ensures rxRecordPos == if framed then at + RECORD_HEADER_LEN else old(rxRecordPos)
    {
      hide *;
      at := rxDatagramPos;
      Bounds();
      var recordLen;
      framed, recordLen := WholeRecord(datagram);
      if !framed {
        rxDatagramLen := 0;
        NothingLeft();
        return;
      }
      PassRecord(recordLen, datagram);
      ValidAgain();
    }

    lemma Bounds()
      requires Valid()
      ensures rxBuffer.Length < 0x100_0000 && rxFragQueueLen <= rxBuffer.Length
      ensures rxRecordPos <= rxBuffer.Length && rxDatagramPos <= rxBuffer.Length && rxBufferPos <= rxBuffer.Length
    {
    }

    lemma NothingLeft()
      requires QueueStored() && rxBuffer.Length < 0x100_0000 && rxFragQueueLen <= rxBuffer.Length
      requires rxRecordPos <= rxBuffer.Length && rxDatagramPos <= rxBuffer.Length && rxBufferPos <= rxBuffer.Length
      requires rxRecordLen == 0 && rxDatagramLen == 0 && rxBufferLen == 0
      ensures Valid() && Record() == [] && Datagram() == [] && Pending() == []
    {
    }

    method WholeRecord(ghost datagram: seq<byte>) returns (framed: bool, recordLen: nat)
      requires Layout() && datagram == Datagram()
      ensures framed <==> RecordFramed(datagram)
      ensures framed ==> recordLen == Load16(datagram, 11) && recordLen + RECORD_HEADER_LEN <= rxDatagramLen
    {
      if rxDatagramLen < RECORD_HEADER_LEN {
        return false, 0;
      }
      SliceLoad16(rxBuffer[..], rxDatagramPos, rxDatagramLen, 11);
      recordLen := Load16(rxBuffer[..], rxDatagramPos + 11);
      framed := recordLen + RECORD_HEADER_LEN <= rxDatagramLen;
    }

    method PassRecord(recordLen: nat, ghost datagram: seq<byte>)
      requires Layout() && rxRecordLen == 0 && rxBufferLen == 0 && datagram == Datagram()
      requires recordLen + RECORD_HEADER_LEN <= rxDatagramLen
      modifies `rxDatagramPos, `rxDatagramLen, `rxRecordPos
      ensures Layout() && Record() == [] && Pending() == []
      ensures Datagram() == datagram[RECORD_HEADER_LEN + recordLen..]
      ensures Raw(old(rxDatagramPos), datagram[..RECORD_HEADER_LEN + recordLen])
      ensures rxDatagramLen <= old(rxDatagramLen) && rxDatagramPos >= old(rxDatagramPos)
      ensures rxRecordPos == old(rxDatagramPos) + RECORD_HEADER_LEN
    {
      SplitRecord(rxBuffer[..], rxDatagramPos, rxDatagramLen, recordLen + RECORD_HEADER_LEN);
      rxRecordPos := rxDatagramPos + RECORD_HEADER_LEN;
      rxDatagramPos := rxDatagramPos + recordLen + RECORD_HEADER_LEN;
      rxDatagramLen := rxDatagramLen - (recordLen + RECORD_HEADER_LEN);
    }

    /** The replay check, which changes nothing. */
    method CheckNumber(at: nat, ghost raw: seq<byte>, seqNum: nat, ghost s: RxState) returns (unseen: bool)
      requires Ready() && Raw(at, raw) && s == Abstract() && seqNum < SequenceNumber.MODULUS
      ensures Ready() && Raw(at, raw) && s == Abstract() && window.Abstract() == old(window.Abstract())
      ensures unseen == window.Abstract().Passes(window.size, window.enabled, seqNum)
    {
      hide Valid, TxReady, Record, Datagram, Pending, Replay.View.Passes;
      unseen := window.Check(seqNum);
    }

    /** The opened record: its plaintext stands behind the header, whose length field tells
        its length. */
    ghost predicate Plain(at: nat, raw: seq<byte>, plaintext: seq<byte>)
      reads `rxRecordPos, `rxDatagramPos, rxBuffer
    {
      && RECORD_HEADER_LEN <= |raw| && rxRecordPos == at + RECORD_HEADER_LEN
      && rxRecordPos + |plaintext| <= rxDatagramPos <= rxBuffer.Length
      && rxBuffer[..][at..at + 11] == raw[..11]
      && Load16(rxBuffer[..], at + 11) == |plaintext|
      && rxBuffer[..][rxRecordPos..rxRecordPos + |plaintext|] == plaintext
    }

    /** Decryption, where the epoch has a cipher or a MAC. */
    method Unprotect(at: nat, ghost raw: seq<byte>, ghost s: RxState) returns (forged: bool)
      requires Ready() && Raw(at, raw) && |raw| == RECORD_HEADER_LEN + Load16(raw, 11)
      requires rxRecordLen == 0 && rxBufferLen == 0 && s == Abstract()
      requires NeverLengthens(decryptor) && rxFragQueueLen <= at
      modifies rxBuffer
      ensures Ready() && Abstract() == s
      ensures var plain := Unprotected(raw, decryptor);
        && forged == plain.Forged? && (plain.Opened? ==> Plain(at, raw, plain.plaintext))
        && (plain.Opened? ==> Load16(rxBuffer[..], at + 11) == |plain.plaintext| <= |raw| - RECORD_HEADER_LEN)
    {
      assert at + |raw| == rxDatagramPos && rxRecordPos == at + RECORD_HEADER_LEN;
      hide Valid, Raw, Record, Datagram, Pending, Load16, NeverLengthens, Unprotected;
      forged := UnprotectBuffer(at, raw);
    }

    method UnprotectBuffer(at: nat, ghost raw: seq<byte>) returns (forged: bool)
      requires Valid() && Raw(at, raw) && |raw| == RECORD_HEADER_LEN + Load16(raw, 11)
      requires rxRecordLen == 0 && rxBufferLen == 0
      requires NeverLengthens(decryptor) && rxFragQueueLen <= at
      modifies rxBuffer
      ensures Valid() && Record() == old(Record()) && Datagram() == old(Datagram()) && Pending() == old(Pending())
      ensures var plain := Unprotected(raw, decryptor);
        forged == plain.Forged? && (plain.Opened? ==> Plain(at, raw, plain.plaintext))
    {
      hide EncodeQueue, Reassembly.QueueInv, NeverLengthens, Load16, Raw, Plain;
      if decryptor.isNull {
        AlreadyPlain(at, raw);
        return false;
      }
      RawPlace(at, raw);
      ghost var before := rxBuffer[..];
      forged := Decrypt(at, raw);
      QueueKept(before, at);
    }

    lemma AlreadyPlain(at: nat, raw: seq<byte>)
      requires Raw(at, raw) && |raw| == RECORD_HEADER_LEN + Load16(raw, 11)
      ensures Plain(at, raw, raw[RECORD_HEADER_LEN..])
    {
      RawParts(rxBuffer[..], at, |raw|);
      SliceLoad16(rxBuffer[..], at, |raw|, 11);
    }

    /** Changes behind the queue and in front of the datagram. */
    lemma QueueKept(before: seq<byte>, at: nat)
      requires Layout() && |before| == rxBuffer.Length && rxFragQueueLen <= at <= rxDatagramPos
      requires before[..at] == rxBuffer[..][..at] && before[rxDatagramPos..] == rxBuffer[..][rxDatagramPos..]
      ensures before[..rxFragQueueLen] == rxBuffer[..][..rxFragQueueLen]
      ensures before[rxDatagramPos..rxDatagramPos + rxDatagramLen] == Datagram()
    {
      assert before[..at][..rxFragQueueLen] == before[..rxFragQueueLen];
      assert rxBuffer[..][..at][..rxFragQueueLen] == rxBuffer[..][..rxFragQueueLen];
    }

    /** tlsDecryptRecord: the plaintext replaces the payload where it stands, and the length
        field is set. What is left of the payload otherwise is not determined. */
    method Decrypt(at: nat, ghost raw: seq<byte>) returns (forged: bool)
      requires Raw(at, raw) && |raw| == RECORD_HEADER_LEN + Load16(raw, 11) && NeverLengthens(decryptor)
      modifies rxBuffer
      ensures var plain := decryptor.dec(raw[..11], raw[RECORD_HEADER_LEN..]);
        forged == plain.Forged? && (plain.Opened? ==> Plain(at, raw, plain.plaintext))
      ensures rxBuffer[..][..at] == old(rxBuffer[..])[..at]
      ensures rxBuffer[..][rxDatagramPos..] == old(rxBuffer[..])[rxDatagramPos..]
    {
      ghost var before := rxBuffer[..];
      RawParts(before, at, |raw|);
      var plain := decryptor.dec(rxBuffer[at..at + 11], rxBuffer[rxRecordPos..rxDatagramPos]);
      assert before[at..at + 11] == rxBuffer[at..at + 11];
      assert plain.Opened? ==> |plain.plaintext| <= |raw| - RECORD_HEADER_LEN;
      hide NeverLengthens;
      if plain.Opened? {
        Write(rxBuffer, rxRecordPos, plain.plaintext);
        ghost var mid := rxBuffer[..];
        Write(rxBuffer, at + 11, Store16(|plain.plaintext|));
        OpenedInPlace(before, at, plain.plaintext, mid, rxBuffer[..], rxDatagramPos);
        return false;
      }
      var garbage := seq(rxDatagramPos - rxRecordPos, _ => 0);
      Write(rxBuffer, rxRecordPos, garbage);
      Written(before, rxRecordPos, garbage, rxBuffer[..], at, rxDatagramPos);
      return true;
    }

    /** The record is taken over, and its number marked in the window. */
    method TakeOver(at: nat, ghost raw: seq<byte>, ghost plaintext: seq<byte>, seqNum: nat, ghost s: RxState)
      requires Ready() && Plain(at, raw, plaintext) && seqNum < SequenceNumber.MODULUS
      requires rxRecordLen == 0 && rxBufferLen == 0 && s == Abstract()
      modifies `rxRecordLen, `rxRecordVersion, `rxBufferType, window, window.words
      ensures Ready() && window.enabled == old(window.enabled)
      ensures Abstract() == s.(recordVersion := Load16(raw, 1), contentType := raw[0], record := plaintext)
      ensures window.Abstract() == old(window.Abstract()).Validated(seqNum)
      ensures rxRecordLen == |plaintext|
    {
      hide Valid, TxReady, Record, Datagram, Pending, Load16, Plain;
      MarkNumber(seqNum, at, raw, plaintext, s);
      FillRecord(at, raw, plaintext);
    }

    method FillRecord(at: nat, ghost raw: seq<byte>, ghost plaintext: seq<byte>)
      requires Valid() && Plain(at, raw, plaintext) && rxRecordLen == 0
      modifies `rxRecordLen, `rxRecordVersion, `rxBufferType
      ensures Valid() && Record() == plaintext && Datagram() == old(Datagram()) && Pending() == old(Pending())
      ensures rxRecordVersion == Load16(raw, 1) && rxBufferType == raw[0] && rxRecordLen == |plaintext|
    {
      HeaderOf(rxBuffer[..], at, raw);
      hide Load16, QueueStored;
      rxRecordVersion := Load16(rxBuffer[..], at + 1);
      rxBufferType := rxBuffer[at];
      rxRecordLen := Load16(rxBuffer[..], at + 11);
    }

    method MarkNumber(seqNum: nat, ghost at: nat, ghost raw: seq<byte>, ghost plaintext: seq<byte>, ghost s: RxState)
      requires Ready() && Plain(at, raw, plaintext) && s == Abstract() && seqNum < SequenceNumber.MODULUS
      modifies window, window.words
      ensures Ready() && Plain(at, raw, plaintext) && s == Abstract() && window.enabled == old(window.enabled)
      ensures window.Abstract() == old(window.Abstract()).Validated(seqNum)
    {
      hide QueueStored, Layout, Record, Datagram, Pending, Load16, Transmit.Transmitter.Valid,
           Transmit.Transmitter.CanSend, Replay.ReplayWindow.Valid, Replay.View.Validated;
      window.Update(seqNum);
    }

    // ----- The receive loop -----

    /** The queue ends in front of what is unread. */
    ghost predicate Ahead()
      reads `rxFragQueueLen, `rxDatagramPos, `rxDatagramLen, `rxRecordPos, `rxRecordLen
    {
      && (rxRecordLen > 0 ==> rxFragQueueLen <= rxRecordPos)
      && (rxDatagramLen > 0 ==> rxFragQueueLen <= rxDatagramPos)
    }

    /** A datagram is received behind the queue and moved to the end of the buffer. */
    method ReceiveDatagram(data: seq<byte>)
      requires Ready() && rxRecordLen == 0 && rxDatagramLen == 0 && rxBufferLen == 0
      requires rxFragQueueLen + |data| <= rxBuffer.Length
      modifies rxBuffer, `rxDatagramPos, `rxDatagramLen
      ensures Ready() && Abstract() == old(Abstract()).(datagram := data)
      ensures Ahead()
      ensures 2 * rxFragQueueLen + 3 * |data| <= rxBuffer.Length ==> Roomy(Abstract(), rxRecordPos, rxBuffer.Length)
    {
      hide Valid, Record, Datagram, Pending, Ahead, Roomy, Unread;
      PlaceDatagram(data);
      RoomAround();
    }

    /** With nothing but the datagram unread. */
    lemma RoomAround()
      requires Ready() && rxRecordLen == 0 && rxFragQueueLen + rxDatagramLen <= rxBuffer.Length
      ensures Ahead()
      ensures 2 * rxFragQueueLen + 3 * rxDatagramLen <= rxBuffer.Length ==>
        Roomy(Abstract(), rxRecordPos, rxBuffer.Length)
    {
      Lengths(Abstract());
    }

    method PlaceDatagram(data: seq<byte>)
      requires Valid() && rxRecordLen == 0 && rxDatagramLen == 0 && rxBufferLen == 0
      requires rxFragQueueLen + |data| <= rxBuffer.Length
      modifies rxBuffer, `rxDatagramPos, `rxDatagramLen
      ensures Valid() && Record() == old(Record()) && Datagram() == data && Pending() == old(Pending())
      ensures rxDatagramPos + rxDatagramLen == rxBuffer.Length && rxDatagramLen == |data|
    {
      MoveIn(data);
      rxDatagramLen := |data|;
      rxDatagramPos := rxBuffer.Length - rxDatagramLen;
    }

    method MoveIn(data: seq<byte>)
      requires rxFragQueueLen + |data| <= rxBuffer.Length
      modifies rxBuffer
      ensures rxBuffer[..][..rxFragQueueLen] == old(rxBuffer[..])[..rxFragQueueLen]
      ensures rxBuffer[..][rxBuffer.Length - |data|..rxBuffer.Length] == data
    {
      ghost var before := rxBuffer[..];
      Write(rxBuffer, rxFragQueueLen, data);
      ghost var mid := rxBuffer[..];
      Memmove(rxBuffer, rxBuffer.Length - |data|, rxFragQueueLen, |data|);
      Placed(before, rxFragQueueLen, data, mid, rxBuffer[..]);
    }

    /** One call of dtlsProcessRecord by the loop. */
    method ProcessOne(now: nat, ghost s: RxState)
      requires Ready() && Ahead() && rxRecordLen > 0 && rxBufferLen == 0 && s == Abstract()
      requires Clear(s, rxRecordPos, rxBuffer.Length)
      modifies rxBuffer, `rxFragQueueLen, `queue, `rxBufferLen, `rxBufferPos, `rxMsgSeq, `txMsgSeq, `rxRecordPos
      modifies `rxRecordLen
      modifies tx`txBufferPos, tx`txDatagramLen, tx`packing, tx`emitted, tx`base, tx`prevBase, tx`datagrams, tx`sent
      modifies tx`retransmitCount, tx`retransmitTimestamp, tx`txBufferLen, tx`flight
      modifies tx.txBuffer, tx.encryptionEngine.seqNum, tx.prevEncryptionEngine.seqNum
      ensures Ready() && Ahead() && Abstract() == ReceiveSpec.ProcessRecord(s, rxBuffer.Length).next
      ensures rxRecordPos == NextPlace(s, old(rxRecordPos), rxBuffer.Length)
    {
      hide *;
      Lengths(s);
      AbstractFields();
      QueueAhead(s);
      ProcessStaysAhead(s, rxRecordPos, rxBuffer.Length);
      ProcessPlace(s, rxRecordPos, rxBuffer.Length);
      ghost var place := rxRecordPos;
      var status := ProcessRecord(now, s);
      Lengths(Abstract());
      StaysAhead(place);
    }

    /** One call of dtlsReadRecord by the loop. */
    method ReadOne(ghost s: RxState) returns (status: Status)
      requires Ready() && Ahead() && rxRecordLen == 0 && rxBufferLen == 0 && s == Abstract()
      requires NeverLengthens(decryptor)
      requires rxDatagramLen > 0
      modifies rxBuffer, `rxDatagramPos, `rxDatagramLen, `rxRecordPos, `rxRecordLen, `rxRecordVersion, `rxBufferType
      modifies window, window.words
      ensures Ready() && Ahead() && window.enabled == old(window.enabled)
      ensures rxRecordPos == NextPlace(s, old(rxRecordPos), rxBuffer.Length)
      ensures var v := old(window.Abstract());
        var unseen := v.Passes(window.size, window.enabled, SeqNum(s.datagram));
        var (next, verdict, taken) := ReceiveSpec.ReadRecord(s, decryptor, unseen);
        && Abstract() == next && status == verdict
        && window.Abstract() == if taken then v.Validated(SeqNum(s.datagram)) else v
    {
      hide *;
      ghost var place := rxDatagramPos;
      DatagramPlace(s);
      ReadPlace(s, decryptor, rxRecordPos, rxBuffer.Length,
                window.Abstract().Passes(window.size, window.enabled, SeqNum(s.datagram)));
      status := ReadRecord(s);
      Lengths(Abstract());
      StaysAheadRead(place);
    }

    lemma QueueAhead(s: RxState)
      requires Ready() && Ahead() && rxRecordLen > 0 && s == Abstract()
      ensures |EncodeQueue(s.queue)| <= rxRecordPos <= rxDatagramPos && Reassembly.QueueInv(s.queue)
      ensures Reassembly.Gapped(s.queue) && s.record != [] && rxBuffer.Length < 0x100_0000
    {
    }

    lemma DatagramPlace(s: RxState)
      requires Ready() && Ahead() && rxDatagramLen > 0 && rxRecordLen == 0 && s == Abstract()
      ensures rxFragQueueLen <= rxDatagramPos == rxBuffer.Length - |s.datagram| && s.record == []
    {
    }

    lemma StaysAhead(place: nat)
      requires rxFragQueueLen <= place <= rxRecordPos && Layout() && place <= rxDatagramPos
      ensures Ahead()
    {
    }

    lemma StaysAheadRead(place: nat)
      requires Ready() && rxFragQueueLen <= place <= rxDatagramPos && (rxRecordLen > 0 ==> place <= rxRecordPos)
      ensures Ahead()
    {
    }

    lemma Lengths(s: RxState)
      requires Ready() && s == Abstract()
      ensures Layout() && Reassembly.QueueInv(s.queue) && Reassembly.Gapped(s.queue) && rxBuffer.Length < 0x100_0000
      ensures |EncodeQueue(s.queue)| == rxFragQueueLen && |s.record| == rxRecordLen && |s.datagram| == rxDatagramLen
      ensures |s.pending| == rxBufferLen
    {
    }

    /** What the loop makes of the state, on values. */
    ghost function Worked(): Outcome
      requires Ready() && NeverLengthens(decryptor)
      reads this, rxBuffer, tx, tx.txBuffer, tx.encryptionEngine.seqNum, tx.prevEncryptionEngine.seqNum, window
      reads window.words
    {
      ReceiveLoop.WorkOff(Abstract(), window.Abstract(), decryptor, rxRecordPos, rxBuffer.Length, window.size,
                          window.enabled)
    }

    lemma WorkedIs()
      requires Ready() && NeverLengthens(decryptor)
      ensures Worked() == ReceiveLoop.WorkOff(Abstract(), window.Abstract(), decryptor, rxRecordPos, rxBuffer.Length,
                                              window.size, window.enabled)
    {
    }

    /** The receive loop between two datagram reads comes to an end with the outcome of the
        value-level loop, unless that one spins or meets a block move that is not clear. */
    method WorkOff() returns (end: End)
      requires Ready() && Ahead() && NeverLengthens(decryptor) && Worked().end.Regular()
      modifies rxBuffer, `rxFragQueueLen, `queue, `rxBufferLen, `rxBufferPos, `rxMsgSeq, `txMsgSeq, `rxRecordPos
      modifies `rxRecordLen
      modifies `rxDatagramPos, `rxDatagramLen, `rxRecordVersion, `rxBufferType, window, window.words
      modifies tx`txBufferPos, tx`txDatagramLen, tx`packing, tx`emitted, tx`base, tx`prevBase, tx`datagrams, tx`sent
      modifies tx`retransmitCount, tx`retransmitTimestamp, tx`txBufferLen, tx`flight
      modifies tx.txBuffer, tx.encryptionEngine.seqNum, tx.prevEncryptionEngine.seqNum
      ensures Ready() && Ahead()
      ensures Outcome(Abstract(), window.Abstract(), rxRecordPos, end) == old(Worked())
    {
      hide *;
      WorkedIs();
      Lengths(Abstract());
      ghost var goal := Worked();
      while true
        invariant Ready() && Ahead() && NeverLengthens(decryptor) && window.enabled == old(window.enabled)
        invariant Reassembly.Gapped(Abstract().queue) && goal.end.Regular()
        invariant goal == ReceiveLoop.WorkOff(Abstract(), window.Abstract(), decryptor, rxRecordPos, rxBuffer.Length,
                                              window.size, window.enabled)
        decreases ReceiveRuns.Measure(Abstract())
      {
        ghost var s, place := Abstract(), rxRecordPos;
        Lengths(s);
        WorkOffEnds(s, window.Abstract(), decryptor, place, rxBuffer.Length, window.size, window.enabled);
        if rxBufferLen > 0 {
          return HandedUp;
        } else if rxRecordLen > 0 {
          var now: nat := *;
          WorkOffProcess(s, window.Abstract(), decryptor, place, rxBuffer.Length, window.size, window.enabled);
          ProcessOne(now, s);
        } else if rxDatagramLen > 0 {
          WorkOffRead(s, window.Abstract(), decryptor, place, rxBuffer.Length, window.size, window.enabled);
          var status := ReadOne(s);
          if status == RecordOverflow {
            return Overflow;
          }
        } else {
          return Exhausted;
        }
      }
    }

    method DropRecord()
      requires Valid()
      modifies `rxRecordLen
      ensures Valid() && Record() == [] && Datagram() == old(Datagram()) && Pending() == old(Pending())
    {
      rxRecordLen := 0;
    }

    method FlushQueue()
      requires Layout()
      modifies `rxFragQueueLen, `queue
      ensures Valid() && queue == []
    {
      rxFragQueueLen := 0;
      queue := [];
      assert rxBuffer[..][..0] == [];
    }
  }

  /** The framing test on a record as it stands in the buffer. */
  lemma RecordFrame(s: seq<byte>, p: nat, n: nat, record: seq<byte>)
    requires p + n <= |s| && record == s[p..p + n]
    ensures if n < HEADER_LEN then !Framed(record)
      else
        && p + 12 <= |s| && (Framed(record) <==> Load24(s, p + 9) + HEADER_LEN <= n)
        && (Framed(record) ==> |Encode(Front(record))| == Load24(s, p + 9) + HEADER_LEN)
    ensures !Framed(record) ==> BehindFront(record) == []
  {
    if n >= HEADER_LEN {
      assert Load24(record, 9) == Load24(s, p + 9);
    }
  }

  /** A framed record starts with the octets of its fragment. */
  lemma FrontOctets(record: seq<byte>)
    requires Framed(record)
    ensures var n := |Encode(Front(record))|;
      n <= |record| && record[0..n] == Encode(Front(record)) && record[n..] == BehindFront(record)
    ensures Front(record).WireSized()
  {
    EncodeDecode(record, 0);
  }

  lemma SliceLoad16(s: seq<byte>, p: nat, n: nat, k: nat)
    requires p + n <= |s| && k + 2 <= n
    ensures Load16(s[p..p + n], k) == Load16(s, p + k)
  {
  }

  lemma SliceLoad48(s: seq<byte>, p: nat, n: nat, k: nat)
    requires p + n <= |s| && k + 6 <= n
    ensures Load48(s[p..p + n], k) == Load48(s, p + k) < SequenceNumber.MODULUS
  {
  }

  lemma RawParts(s: seq<byte>, p: nat, n: nat)
    requires p + n <= |s| && n >= RECORD_HEADER_LEN
    ensures s[p..p + 11] == s[p..p + n][..11]
    ensures s[p + RECORD_HEADER_LEN..p + n] == s[p..p + n][RECORD_HEADER_LEN..]
  {
  }

  lemma Written(s: seq<byte>, p: nat, w: seq<byte>, t: seq<byte>, lo: nat, hi: nat)
    requires lo <= p && p + |w| <= hi <= |s| && t == Overwritten(s, p, w)
    ensures t[p..p + |w|] == w && t[..lo] == s[..lo] && t[hi..] == s[hi..]
  {
  }

  lemma OpenedInPlace(s: seq<byte>, at: nat, plaintext: seq<byte>, t: seq<byte>, u: seq<byte>, hi: nat)
    requires |plaintext| < 0x1_0000 && at + RECORD_HEADER_LEN + |plaintext| <= hi <= |s|
    requires t == Overwritten(s, at + RECORD_HEADER_LEN, plaintext)
    requires u == Overwritten(t, at + 11, Store16(|plaintext|))
    ensures u[..at] == s[..at] && u[hi..] == s[hi..] && u[at..at + 11] == s[at..at + 11]
    ensures Load16(u, at + 11) == |plaintext|
    ensures u[at + RECORD_HEADER_LEN..at + RECORD_HEADER_LEN + |plaintext|] == plaintext
  {
    var body, field := at + RECORD_HEADER_LEN, Store16(|plaintext|);
    OverwrittenKeeps(s, body, plaintext, 0, at);
    OverwrittenKeeps(s, body, plaintext, at, at + 11);
    OverwrittenKeeps(s, body, plaintext, hi, |s|);
    OverwrittenThere(s, body, plaintext);
    OverwrittenKeeps(t, at + 11, field, 0, at);
    OverwrittenKeeps(t, at + 11, field, at, at + 11);
    OverwrittenKeeps(t, at + 11, field, hi, |s|);
    OverwrittenKeeps(t, at + 11, field, body, body + |plaintext|);
    OverwrittenThere(t, at + 11, field);
    assert u[at + 11 + 0] == field[0] && u[at + 11 + 1] == field[1];
    Whole(s, at, hi);
    Whole(t, at, hi);
    Whole(u, at, hi);
    hide Overwritten;
  }

  lemma Whole(s: seq<byte>, lo: nat, hi: nat)
    requires lo <= |s| && hi <= |s|
    ensures s[..lo] == s[0..lo] && s[hi..] == s[hi..|s|]
  {
  }

  lemma HeaderOf(s: seq<byte>, at: nat, raw: seq<byte>)
    requires at + 11 <= |s| && |raw| >= 11 && s[at..at + 11] == raw[..11]
    ensures s[at] == raw[0] && Load16(s, at + 1) == Load16(raw, 1)
  {
    assert s[at..at + 11][0] == raw[..11][0] && s[at..at + 11][1] == raw[..11][1] && s[at..at + 11][2] == raw[..11][2];
  }

  /** The value-level step on a framed datagram. */
  function Unprotected(raw: seq<byte>, e: Decryptor): Opened
    requires |raw| >= RECORD_HEADER_LEN
  {
    if e.isNull then Opened(raw[RECORD_HEADER_LEN..]) else e.dec(raw[..11], raw[RECORD_HEADER_LEN..])
  }

  function ReadRaw(s: RxState, raw: seq<byte>, e: Decryptor, unseen: bool): (RxState, Status, bool)
    requires |raw| >= RECORD_HEADER_LEN
  {
    if Load16(raw, 3) != s.epoch then (s, InvalidEpoch, false)
    else if !unseen then (s, InvalidSequenceNumber, false)
    else match Unprotected(raw, e)
      case Forged => (s, DecryptionFailed, false)
      case Opened(plaintext) =>
        if !e.isNull && |plaintext| > MAX_RECORD_LENGTH then (s, RecordOverflow, false)
        else (s.(recordVersion := Load16(raw, 1), contentType := raw[0], record := plaintext), Ok, true)
  }

  /** A raw record that is not taken leaves the state alone. */
  lemma RawOutcome(s: RxState, raw: seq<byte>, e: Decryptor, unseen: bool)
    requires |raw| >= RECORD_HEADER_LEN
    ensures RECORD_HEADER_LEN == 13 && MAX_RECORD_LENGTH == 16384
    ensures var (next, status, taken) := ReadRaw(s, raw, e, unseen);
      var plain := Unprotected(raw, e);
      && (!taken ==> next == s)
      && (Load16(raw, 3) != s.epoch ==> status == InvalidEpoch && !taken)
      && (Load16(raw, 3) == s.epoch && !unseen ==> status == InvalidSequenceNumber && !taken)
      && (Load16(raw, 3) == s.epoch && unseen && plain.Forged? ==> status == DecryptionFailed && !taken)
      && (Load16(raw, 3) == s.epoch && unseen && plain.Opened? ==>
            && (taken <==> e.isNull || |plain.plaintext| <= MAX_RECORD_LENGTH)
            && status == (if taken then Ok else RecordOverflow)
            && (taken ==> next == s.(recordVersion := Load16(raw, 1), contentType := raw[0],
                                     record := plain.plaintext)))
  {
  }

  lemma ReadCases(s: RxState, e: Decryptor, unseen: bool)
    ensures !RecordFramed(s.datagram) ==>
      ReceiveSpec.ReadRecord(s, e, unseen) == (s.(datagram := []), InvalidLength, false)
    ensures RecordFramed(s.datagram) ==>
      var n := RECORD_HEADER_LEN + Load16(s.datagram, 11);
      var raw := s.datagram[..n];
      && |raw| == n == RECORD_HEADER_LEN + Load16(raw, 11) && SeqNum(s.datagram) == Load48(raw, 5)
      && ReceiveSpec.ReadRecord(s, e, unseen) == ReadRaw(s.(datagram := s.datagram[n..]), raw, e, unseen)
  {
    if RecordFramed(s.datagram) { RawCases(s, e, unseen); }
  }

  lemma RawCases(s: RxState, e: Decryptor, unseen: bool)
    requires RecordFramed(s.datagram)
    ensures var n := RECORD_HEADER_LEN + Load16(s.datagram, 11);
      var raw := s.datagram[..n];
      && |raw| == n == RECORD_HEADER_LEN + Load16(raw, 11) && SeqNum(s.datagram) == Load48(raw, 5)
      && ReceiveSpec.ReadRecord(s, e, unseen) == ReadRaw(s.(datagram := s.datagram[n..]), raw, e, unseen)
  {
    var n := RECORD_HEADER_LEN + Load16(s.datagram, 11);
    SliceLoad16(s.datagram, 0, n, 11);
    SliceLoad16(s.datagram, 0, n, 3);
    SliceLoad16(s.datagram, 0, 11, 3);
    SliceLoad16(s.datagram, 0, n, 1);
    SliceLoad16(s.datagram, 0, 11, 1);
    SliceLoad48(s.datagram, 0, n, 5);
    assert s.datagram[..n][..11] == s.datagram[..11];
    assert s.datagram[..n] == s.datagram[0..n] && s.datagram[..11] == s.datagram[0..11];
    assert s.datagram[..n][RECORD_HEADER_LEN..] == s.datagram[RECORD_HEADER_LEN..n];
  }

  lemma Placed(s: seq<byte>, n: nat, data: seq<byte>, t: seq<byte>, u: seq<byte>)
    requires n + |data| <= |s| && t == Overwritten(s, n, data) && u == Moved(t, |s| - |data|, n, |data|)
    ensures u[..n] == s[..n] && u[|s| - |data|..|s|] == data
  {
    assert u[..n] == t[..n];
  }

  lemma SplitRecord(s: seq<byte>, p: nat, n: nat, k: nat)
    requires k <= n && p + n <= |s|
    ensures s[p + k..p + n] == s[p..p + n][k..]
    ensures s[p..p + k] == s[p..p + n][0..k]
  {
  }

  lemma CopiedToFront(s: seq<byte>, t: seq<byte>, p: nat, n: nat, d: nat, m: nat)
    requires n <= p && (n > 0 ==> n <= d) && p + n <= |s| && d + m <= |s| && t == Moved(s, 0, p, n)
    ensures t[0..0 + n] == s[p..p + n] && t[d..d + m] == s[d..d + m]
  {
    MovedThere(s, 0, p, n);
    MovedKeeps(s, 0, p, n, d, d + m);
  }

  lemma TypeFirst(f: Fragment, s: seq<byte>)
    requires s == Encode(f)
    ensures |s| > 0 && s[0] == f.msgType
  {
  }

  /** A slice behind a kept part is kept. */
  lemma SliceKept(s: seq<byte>, t: seq<byte>, lo: nat, p: nat, n: nat)
    requires SameFrom(s, t, lo) && p + n <= |s| && (n > 0 ==> lo <= p)
    ensures s[p..p + n] == t[p..p + n]
  {
    if n > 0 {
      SliceBehind(s, lo, p, p + n);
      SliceBehind(t, lo, p, p + n);
    }
  }

  lemma FirstStored(s: seq<byte>, n: nat, q: seq<Fragment>)
    requires Stored(s, n, q) && q != []
    ensures |Encode(q[0])| <= n && s[..|Encode(q[0])|] == Encode(q[0])
  {
    assert s[..|Encode(q[0])|] == s[..n][..|Encode(q[0])|];
  }

  /** What inserting relies on and the result of the call. */
  lemma InsertFacts(buffer: seq<byte>, n: nat, q: seq<Fragment>, f: Fragment, capacity: int, at: nat, limit: nat)
    requires Stored(buffer, n, q) && Reassembly.QueueInv(q) && f.WireSized() && capacity < 0x100_0000
    requires Reassembly.Reassemble(q, f, capacity).Queued? && Apart(q, f, at, limit, |buffer|)
    ensures n + |Encode(f)| <= at <= limit <= |buffer|
    ensures var s := Reassembly.Insert(q, f);
      && s != [] && Reassembly.Ascending(s) && AllWireSized(s) && [s[0]] + s[1..] == s
      && ReassemblyMoves.MovesFit(0, s[0], s[1..], limit, |buffer|)
      && Reassembly.Reassemble(q, f, capacity).queue == Reassembly.Coalesce(s)
      && Reassembly.QueueInv(Reassembly.Coalesce(s))
  {
    hide *;
    ApartMeans(buffer, n, q, f, at, limit);
    ReassemblyMoves.CallFitsIff(q, f, limit, |buffer|);
    Reassembly.ReassembleKeepsInvariant(q, f, capacity);
    QueuedIs(q, f, capacity);
    InsertShape(q, f, limit, |buffer|);
  }

  lemma ApartMeans(buffer: seq<byte>, n: nat, q: seq<Fragment>, f: Fragment, at: nat, limit: nat)
    requires Stored(buffer, n, q) && Reassembly.QueueInv(q) && Apart(q, f, at, limit, |buffer|)
    ensures n + |Encode(f)| <= at <= limit <= |buffer| && Reassembly.Gapped(q) && AllWireSized(q)
    ensures ReassemblyMoves.DropsFit(q, f, limit, |buffer|)
  {
  }

  lemma QueuedIs(q: seq<Fragment>, f: Fragment, capacity: int)
    requires Reassembly.Gapped(q) && Reassembly.Reassemble(q, f, capacity).Queued?
    ensures var s := Reassembly.Insert(q, f);
      s != [] && Reassembly.Ascending(s) && Reassembly.Reassemble(q, f, capacity).queue == Reassembly.Coalesce(s)
  {
    Reassembly.InsertAscending(q, f);
  }

  lemma InsertShape(q: seq<Fragment>, f: Fragment, limit: nat, size: nat)
    requires Reassembly.Gapped(q) && AllWireSized(q) && f.WireSized()
    requires ReassemblyMoves.CallFits(q, f, limit, size)
    ensures var s := Reassembly.Insert(q, f);
      && s != [] && Reassembly.Ascending(s) && AllWireSized(s) && [s[0]] + s[1..] == s
      && ReassemblyMoves.MovesFit(0, s[0], s[1..], limit, size)
  {
    hide EncodeQueue, Encode, ReassemblyMoves.MovesFit, Reassembly.Insert, Reassembly.Gapped, Reassembly.Ascending;
    var s := Reassembly.Insert(q, f);
    Reassembly.InsertAscending(q, f);
    Reassembly.InsertMembers(q, f);
    assert forall k :: 0 <= k < |s| ==> s[k] in s;
    assert [s[0]] + s[1..] == s;
  }
}
