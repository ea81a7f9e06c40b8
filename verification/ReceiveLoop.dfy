/** Working off a datagram: the receive loop together with the replay window and with the places
    of record and datagram in the receive buffer. */
module ReceiveLoop {
  import opened Bytes
  import opened Fragments
  import opened Reassembly
  import opened ReassemblyMoves
  import opened ReassemblyBuffer
  import opened ReceiveSpec
  import opened ReceiveRuns
  import Replay

  // ----- The layout of the receive buffer -----

  /** Where the first unread octet lies, when what is left of the record lies at position at; the
      datagram lies at the end of the buffer. */
  function Unread(s: RxState, at: int, size: nat): int {
    if s.record != [] then at else size - |s.datagram|
  }

  /** The fragment f, taken from position at, gets into the queue without a block move that is
      undefined or that touches what is still unread. */
  predicate ClearOfQueue(s: RxState, f: Fragment, at: int, size: nat)
    requires Gapped(s.queue)
  {
    Screened(s, f) == Ok && Reassemble(s.queue, f, size - |s.datagram|).Queued? ==>
      Apart(s.queue, f, at, Unread(s, at + |Encode(f)|, size), size)
  }

  /** The same for the record at position at: a record that is no handshake record is copied to
      the front of the buffer. */
  predicate Clear(s: RxState, at: int, size: nat)
    requires Gapped(s.queue)
  {
    if s.contentType == TYPE_HANDSHAKE then
      Framed(s.record) ==>
        var f := Decode(s.record, 0);
        ClearOfQueue(s.(record := s.record[HEADER_LEN + |f.data|..]), f, at, size)
    else ProcessOther(s).status == Ok ==> |s.record| <= at
  }

  /** The moves stay in the buffer, and the copies are between places that do not overlap. What is
      defined but not clear shifts octets that are still unread. */
  predicate Defined(s: RxState, at: int, size: nat)
    requires Gapped(s.queue)
  {
    if s.contentType == TYPE_HANDSHAKE then
      Framed(s.record) ==>
        var f := Decode(s.record, 0);
        var t := s.(record := s.record[HEADER_LEN + |f.data|..]);
        Screened(t, f) == Ok && Reassemble(t.queue, f, size - |t.datagram|).Queued? ==>
          Apart(t.queue, f, at, size, size)
    else ProcessOther(s).status == Ok ==> |s.record| <= at
  }

  /** Where the unread record lies after one iteration. */
  function NextPlace(s: RxState, at: int, size: nat): int {
    if s.record == [] then
      if RecordFramed(s.datagram) then size - |s.datagram| + RECORD_HEADER_LEN else at
    else if s.contentType == TYPE_HANDSHAKE && Framed(s.record) then at + HEADER_LEN + Load24(s.record, 9)
    else at
  }

  // ----- The loop -----

  /** How the loop ends: with data for the caller, with the error that ends the connection, with
      nothing left; or it would spin on a record, or make a block move that is not defined, or one
      that garbles what is still unread. */
  datatype End = HandedUp | Overflow | Exhausted | Spinning | Overrun | Garbled {
    predicate Regular() { HandedUp? || Overflow? || Exhausted? }
  }

  /** Receive state, replay window and place of the record when it has ended. */
  datatype Outcome = Outcome(next: RxState, window: Replay.View, at: int, end: End)

  /** What the receive loop does between two datagram reads, to the receive state and to the
      replay window (w positions wide). */
  function WorkOff(s: RxState, v: Replay.View, e: Decryptor, at: int, size: nat, w: nat, enabled: bool): Outcome
    requires Gapped(s.queue) && NeverLengthens(e)
    decreases Measure(s)
  {
    if s.pending != [] then Outcome(s, v, at, HandedUp)
    else if s.record == [] && s.datagram == [] then Outcome(s, v, at, Exhausted)
    else if Stuck(s) then Outcome(s, v, at, Spinning)
    else if s.record != [] && !Clear(s, at, size) then
      Outcome(s, v, at, if Defined(s, at, size) then Garbled else Overrun)
    else
      var unseen := v.Passes(w, enabled, SeqNum(s.datagram));
      var r := Iterate(s, e, unseen, size);
      var next := if s.record == [] && ReadRecord(s, e, unseen).2 then v.Validated(SeqNum(s.datagram)) else v;
      if r.Failed? then Outcome(r.s, next, NextPlace(s, at, size), Overflow)
      else
        ProgressIffNotStuck(s, e, unseen, size);
        WorkOff(r.s, next, e, NextPlace(s, at, size), size, w, enabled)
  }

  lemma WorkOffEnds(s: RxState, v: Replay.View, e: Decryptor, at: int, size: nat, w: nat, enabled: bool)
    requires Gapped(s.queue) && NeverLengthens(e)
    ensures s.pending != [] ==> WorkOff(s, v, e, at, size, w, enabled) == Outcome(s, v, at, HandedUp)
    ensures s.pending == [] && s.record == [] && s.datagram == [] ==>
      WorkOff(s, v, e, at, size, w, enabled) == Outcome(s, v, at, Exhausted)
  {
  }

  lemma WorkOffProcess(s: RxState, v: Replay.View, e: Decryptor, at: int, size: nat, w: nat, enabled: bool)
    requires Gapped(s.queue) && NeverLengthens(e) && s.pending == [] && s.record != []
    ensures WorkOff(s, v, e, at, size, w, enabled).end.Regular() ==> Clear(s, at, size) && !Stuck(s)
    ensures Clear(s, at, size) && !Stuck(s) ==>
      var next := ProcessRecord(s, size).next;
      && Gapped(next.queue) && Measure(next) < Measure(s)
      && WorkOff(s, v, e, at, size, w, enabled) == WorkOff(next, v, e, NextPlace(s, at, size), size, w, enabled)
  {
    ProgressIffNotStuck(s, e, v.Passes(w, enabled, SeqNum(s.datagram)), size);
    hide ProcessRecord, ReadRecord, Clear, Stuck;
  }

  lemma WorkOffRead(s: RxState, v: Replay.View, e: Decryptor, at: int, size: nat, w: nat, enabled: bool)
    requires Gapped(s.queue) && NeverLengthens(e)
    requires s.pending == [] && s.record == [] && s.datagram != []
    ensures var (next, status, taken) := ReadRecord(s, e, v.Passes(w, enabled, SeqNum(s.datagram)));
      var after := if taken then v.Validated(SeqNum(s.datagram)) else v;
      if status == RecordOverflow then
        WorkOff(s, v, e, at, size, w, enabled) == Outcome(next, after, NextPlace(s, at, size), Overflow)
      else
        && Gapped(next.queue) && Measure(next) < Measure(s)
        && WorkOff(s, v, e, at, size, w, enabled) == WorkOff(next, after, e, NextPlace(s, at, size), size, w, enabled)
  {
    var unseen := v.Passes(w, enabled, SeqNum(s.datagram));
    if ReadRecord(s, e, unseen).1 != RecordOverflow {
      ProgressIffNotStuck(s, e, unseen, size);
    }
    hide ProcessRecord, ReadRecord, Clear;
  }

  // ----- When the loop ends regularly -----

  /** With matching record versions it never spins. */
  lemma {:induction false} NeverSpins(s: RxState, v: Replay.View, e: Decryptor, at: int, size: nat, w: nat,
                                      enabled: bool)
    requires Gapped(s.queue) && NeverLengthens(e) && VersionInv(s)
    ensures WorkOff(s, v, e, at, size, w, enabled).end != Spinning
    decreases Measure(s)
  {
    var unseen := v.Passes(w, enabled, SeqNum(s.datagram));
    var r := Iterate(s, e, unseen, size);
    var next := if s.record == [] && ReadRecord(s, e, unseen).2 then v.Validated(SeqNum(s.datagram)) else v;
    hide ProcessRecord, ReadRecord, Clear, CarriesVersion, NeverLengthens, Iterate, Measure;
    NoStuckRecord(s);
    WorkOffEnds(s, v, e, at, size, w, enabled);
    if r.Continue? {
      ProgressIffNotStuck(s, e, unseen, size);
      IterateKeepsVersion(s, e, unseen, size);
      NeverSpins(r.s, next, e, NextPlace(s, at, size), size, w, enabled);
    }
  }

  lemma NoStuckRecord(s: RxState)
    requires VersionInv(s)
    ensures !Stuck(s)
  {
  }

  /** Queue, record and datagram have twice their length in front of the first unread octet. */
  predicate Roomy(s: RxState, at: int, size: nat) {
    && 2 * (|EncodeQueue(s.queue)| + |s.record| + |s.datagram|) <= Unread(s, at, size)
    && (s.record != [] ==> at + |s.record| <= size - |s.datagram|)
  }

  /** That is room enough for a datagram of any content. */
  lemma {:induction false} NeverOverruns(s: RxState, v: Replay.View, e: Decryptor, at: int, size: nat, w: nat,
                                         enabled: bool)
    requires QueueInv(s.queue) && NeverLengthens(e) && size < 0x100_0000 && Roomy(s, at, size)
    ensures !WorkOff(s, v, e, at, size, w, enabled).end.Overrun? && !WorkOff(s, v, e, at, size, w, enabled).end.Garbled?
    decreases Measure(s)
  {
    hide *;
    QueueGapped(s.queue);
    WorkOffEnds(s, v, e, at, size, w, enabled);
    if s.pending == [] && s.record != [] {
      WorkOffKept(s, v, e, at, size, w, enabled);
      RoomyClear(s, at, size);
      WorkOffProcess(s, v, e, at, size, w, enabled);
      ProcessKeepsRoom(s, at, size);
      if !Stuck(s) {
        NeverOverruns(ProcessRecord(s, size).next, v, e, NextPlace(s, at, size), size, w, enabled);
      }
    } else if s.pending == [] && s.datagram != [] {
      var unseen := v.Passes(w, enabled, SeqNum(s.datagram));
      var (next, status, taken) := ReadRecord(s, e, unseen);
      WorkOffRead(s, v, e, at, size, w, enabled);
      ReadKeepsRoom(s, e, unseen, at, size);
      if status != RecordOverflow {
        NeverOverruns(next, if taken then v.Validated(SeqNum(s.datagram)) else v, e, NextPlace(s, at, size), size, w,
                      enabled);
      }
    }
  }

  lemma QueueGapped(q: seq<Fragment>)
    requires QueueInv(q)
    ensures Gapped(q)
  {
  }

  /** A record that is not processed stays where it is. */
  lemma WorkOffKept(s: RxState, v: Replay.View, e: Decryptor, at: int, size: nat, w: nat, enabled: bool)
    requires Gapped(s.queue) && NeverLengthens(e) && s.pending == [] && s.record != []
    ensures Stuck(s) ==> WorkOff(s, v, e, at, size, w, enabled) == Outcome(s, v, at, Spinning)
    ensures !Stuck(s) && !Clear(s, at, size) ==>
      WorkOff(s, v, e, at, size, w, enabled) == Outcome(s, v, at, if Defined(s, at, size) then Garbled else Overrun)
  {
  }

  lemma RoomyClear(s: RxState, at: int, size: nat)
    requires Gapped(s.queue) && s.record != [] && Roomy(s, at, size)
    ensures Clear(s, at, size)
  {
    hide EncodeQueue, Encode, Screened, Reassemble, Load24;
    if s.contentType == TYPE_HANDSHAKE && Framed(s.record) {
      var f := Decode(s.record, 0);
      ClearEnough(s.(record := s.record[HEADER_LEN + |f.data|..]), f, at, size);
    }
  }

  /** A fragment with twice the stored queue and once its own length in front of it is never
      overwritten by its own insertion, nor is anything behind it. */
  lemma ClearEnough(s: RxState, f: Fragment, at: int, size: nat)
    requires Gapped(s.queue) && 2 * |EncodeQueue(s.queue)| + |Encode(f)| <= at
    requires at + |Encode(f)| + |s.record| <= size - |s.datagram|
    ensures ClearOfQueue(s, f, at, size)
  {
    hide EncodeQueue, Encode, Screened, Reassemble;
    DropsFitTwice(s.queue, f, Unread(s, at + |Encode(f)|, size), size);
  }

  lemma ProcessKeepsRoom(s: RxState, at: int, size: nat)
    requires QueueInv(s.queue) && size < 0x100_0000 && s.record != [] && Roomy(s, at, size)
    ensures var next := ProcessRecord(s, size).next;
      QueueInv(next.queue) && Roomy(next, NextPlace(s, at, size), size)
  {
    ProcessRecordShrinks(s, size);
    ProcessPlace(s, at, size);
    hide ProcessRecord, EncodeQueue, QueueInv, NextPlace;
  }

  /** What is left of a record ends where the record ended. */
  lemma ProcessPlace(s: RxState, at: int, size: nat)
    requires Gapped(s.queue) && s.record != []
    ensures var next := ProcessRecord(s, size).next;
      && NextPlace(s, at, size) >= at
      && (next.record != [] ==> NextPlace(s, at, size) + |next.record| == at + |s.record|)
  {
    hide Load24, Reassemble, Screened;
  }

  lemma ReadKeepsRoom(s: RxState, e: Decryptor, unseen: bool, at: int, size: nat)
    requires s.record == [] && NeverLengthens(e) && Roomy(s, at, size)
    ensures var next := ReadRecord(s, e, unseen).0;
      next.queue == s.queue && Roomy(next, NextPlace(s, at, size), size)
  {
    hide Load16, EncodeQueue;
    if RecordFramed(s.datagram) {
      var n := RECORD_HEADER_LEN + Load16(s.datagram, 11);
      assert |s.datagram[RECORD_HEADER_LEN..n]| == n - RECORD_HEADER_LEN;
    }
  }

  /** A clear step leaves the queue in front of what is unread. */
  lemma ProcessStaysAhead(s: RxState, at: int, size: nat)
    requires QueueInv(s.queue) && size < 0x100_0000 && s.record != [] && s.pending == []
    requires |EncodeQueue(s.queue)| <= at && Clear(s, at, size)
    ensures |EncodeQueue(ProcessRecord(s, size).next.queue)| <= at
  {
    hide Clear, ClearOfQueue, ProcessRecord, ProcessFragment, QueueInv, Gapped, EncodeQueue, Encode, Load24;
    QueueGapped(s.queue);
    if s.contentType == TYPE_HANDSHAKE && Framed(s.record) {
      HandshakeClear(s, at, size);
      FragmentStaysAhead(s.(record := s.record[HEADER_LEN + |Decode(s.record, 0).data|..]), Decode(s.record, 0), at,
                         size);
    } else {
      QueueKeptOrFlushed(s, size);
    }
  }

  lemma HandshakeClear(s: RxState, at: int, size: nat)
    requires Gapped(s.queue) && s.contentType == TYPE_HANDSHAKE && Framed(s.record)
    ensures HEADER_LEN + |Decode(s.record, 0).data| <= |s.record| && Decode(s.record, 0).WireSized()
    ensures var f := Decode(s.record, 0);
      var t := s.(record := s.record[HEADER_LEN + |f.data|..]);
      && ProcessRecord(s, size) == ProcessFragment(t, f, size) && t.queue == s.queue
      && (Clear(s, at, size) <==> ClearOfQueue(t, f, at, size))
  {
    DecodeSized(s.record, 0);
    hide Load24, ProcessFragment, ClearOfQueue;
  }

  lemma QueueKeptOrFlushed(s: RxState, size: nat)
    requires Gapped(s.queue) && !(s.contentType == TYPE_HANDSHAKE && Framed(s.record))
    ensures |EncodeQueue(ProcessRecord(s, size).next.queue)| <= |EncodeQueue(s.queue)|
  {
    EmptyQueue();
    hide EncodeQueue, Framed;
  }

  lemma FragmentStaysAhead(s: RxState, f: Fragment, at: int, size: nat)
    requires QueueInv(s.queue) && Gapped(s.queue) && size < 0x100_0000 && f.WireSized()
    requires |EncodeQueue(s.queue)| <= at && ClearOfQueue(s, f, at, size)
    ensures |EncodeQueue(ProcessFragment(s, f, size).next.queue)| <= at
  {
    EmptyQueue();
    hide EncodeQueue, Encode, Screened, DropsFit, QueueInv;
    if Reassemble(s.queue, f, size - |s.datagram|).Queued? {
      ReassembleKeepsInvariant(s.queue, f, size - |s.datagram|);
    }
  }

  /** A record that was read lies right behind its header. */
  lemma ReadPlace(s: RxState, e: Decryptor, at: int, size: nat, unseen: bool)
    requires s.record == []
    ensures NextPlace(s, at, size) == if RecordFramed(s.datagram) then size - |s.datagram| + RECORD_HEADER_LEN else at
    ensures !RecordFramed(s.datagram) ==> ReadRecord(s, e, unseen).0.record == []
  {
  }
}
