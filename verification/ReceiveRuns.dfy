/** Whole runs of the receive path: in-order exactly-once delivery (section 4.2.2 of
    RFC 6347), and when the receive loop drains what has arrived. */
module ReceiveRuns {
  import opened Bytes
  import opened Fragments
  import opened Reassembly
  import opened ReceiveSpec

  // ----- Delivery -----

  lemma DecodeSized(s: seq<byte>, p: nat)
    requires p + HEADER_LEN <= |s| && p + HEADER_LEN + Load24(s, p + 9) <= |s|
    ensures Decode(s, p).WireSized() && |Decode(s, p).data| == Load24(s, p + 9)
  {
  }

  /** The messages of the peer, numbered consecutively from first without wrap-around. */
  ghost predicate PeerMessages(msgs: seq<Message>, first: nat) {
    && first + |msgs| < 0x1_0000
    && forall k :: 0 <= k < |msgs| ==> msgs[k].WireSized() && msgs[k].msgSeq == first + k
  }

  predicate FromPeer(f: Fragment, msgs: seq<Message>, first: nat) {
    first <= f.msgSeq < first + |msgs| && CutOf(f, msgs[f.msgSeq - first])
  }

  /** Every handshake fragment packed into the record is cut from a message of the peer. */
  predicate PeerRecord(record: seq<byte>, msgs: seq<Message>, first: nat)
    decreases |record|
  {
    Framed(record) ==>
      && FromPeer(Decode(record, 0), msgs, first)
      && PeerRecord(record[HEADER_LEN + Load24(record, 9)..], msgs, first)
  }

  /** What can happen around the record layer: another record is read, whatever the network
      lost, repeated or reordered before it; dtlsProcessRecord is called; the caller takes
      the pending data and the handshake moves on. */
  datatype Event =
    | Arrival(contentType: byte, recordVersion: nat, record: seq<byte>, datagram: seq<byte>)
    | Process
    | Take(state: nat, version: nat)

  /** The new state, and the handshake messages handed up in this step. */
  function Step(s: RxState, e: Event, size: nat): (RxState, seq<seq<byte>>)
    requires Gapped(s.queue)
  {
    match e
    case Arrival(t, v, r, d) =>
      (if s.record == [] then s.(contentType := t, recordVersion := v, record := r, datagram := d) else s, [])
    case Process =>
      if s.pending == [] && s.record != [] then
        var next := ProcessRecord(s, size).next;
        (next, if next.pending != [] && s.contentType == TYPE_HANDSHAKE then [next.pending] else [])
      else (s, [])
    case Take(state, version) =>
      (s.(pending := [], state := state, version := version), [])
  }

  ghost predicate PeerEvent(e: Event, msgs: seq<Message>, first: nat) {
    e.Arrival? && e.contentType == TYPE_HANDSHAKE ==> PeerRecord(e.record, msgs, first)
  }

  /** The first k messages in unfragmented form. */
  function Wholes(msgs: seq<Message>, k: nat): seq<seq<byte>>
    requires k <= |msgs|
  {
    if k == 0 then [] else Wholes(msgs, k - 1) + [Encode(msgs[k - 1].Whole())]
  }

  ghost predicate DeliveryInv(s: RxState, handed: seq<seq<byte>>, msgs: seq<Message>, first: nat) {
    && s.entity == Client
    && QueueInv(s.queue)
    && first <= s.msgSeq <= first + |msgs|
    && (s.queue != [] ==> s.msgSeq < first + |msgs|)
    && (forall e :: e in s.queue ==> CutOf(e, msgs[s.msgSeq - first]))
    && (s.contentType == TYPE_HANDSHAKE ==> PeerRecord(s.record, msgs, first))
    && handed == Wholes(msgs, s.msgSeq - first)
  }

  /** The heart of delivery: one fragment of the peer changes nothing that counts, or is
      queued for the expected message, or completes and hands up that message. */
  lemma ProcessFragmentCases(s: RxState, f: Fragment, size: nat, msgs: seq<Message>, first: nat)
    requires size < 0x100_0000
    requires PeerMessages(msgs, first) && s.pending == [] && s.entity == Client
    requires f.WireSized() && FromPeer(f, msgs, first)
    requires QueueInv(s.queue) && first <= s.msgSeq <= first + |msgs|
    requires s.queue != [] ==> s.msgSeq < first + |msgs|
    requires forall e :: e in s.queue ==> CutOf(e, msgs[s.msgSeq - first])
    ensures var r := ProcessFragment(s, f, size).next;
      || r == s
      || r == s.(queue := [])
      || (&& s.msgSeq < first + |msgs|
          && var m := msgs[s.msgSeq - first];
          || r == s.(queue := [], msgSeq := s.msgSeq + 1, pending := Encode(m.Whole()))
          || (&& r == s.(queue := r.queue) && QueueInv(r.queue)
              && forall e :: e in r.queue ==> CutOf(e, m)))
  {
    assert Rebased(s, f) == s;
    if Screened(s, f) == Ok {
      AcceptCases(s, f, size, msgs[s.msgSeq - first]);
    }
  }

  lemma AcceptCases(s: RxState, f: Fragment, size: nat, m: Message)
    requires size < 0x100_0000 && s.msgSeq + 1 < 0x1_0000
    requires QueueInv(s.queue) && f.WireSized() && CutOf(f, m) && forall e :: e in s.queue ==> CutOf(e, m)
    ensures var r := Accept(s, f, size).next;
      || r == s.(queue := [])
      || r == s.(queue := [], msgSeq := s.msgSeq + 1, pending := Encode(m.Whole()))
      || (r == s.(queue := r.queue) && QueueInv(r.queue) && forall e :: e in r.queue ==> CutOf(e, m))
  {
    hide Reassemble, CutOf, Encode, AllWireSized, OneMessage, Gapped;
    var capacity := size - |s.datagram|;
    if Reassemble(s.queue, f, capacity).Queued? {
      QueuedDelivers(s.queue, f, capacity, m);
    }
  }

  lemma ProcessFragmentDelivers(s: RxState, f: Fragment, size: nat, handed: seq<seq<byte>>,
                                msgs: seq<Message>, first: nat)
    requires size < 0x100_0000
    requires PeerMessages(msgs, first) && DeliveryInv(s, handed, msgs, first) && s.pending == []
    requires f.WireSized() && FromPeer(f, msgs, first)
    ensures var r := ProcessFragment(s, f, size).next;
      var out := if r.pending != [] then [r.pending] else [];
      DeliveryInv(r, handed + out, msgs, first)
  {
    ProcessFragmentCases(s, f, size, msgs, first);
    hide ProcessFragment, CutOf, PeerRecord, QueueInv;
    var r := ProcessFragment(s, f, size).next;
    EmptyQueue();
    assert handed + [] == handed;
    if r.msgSeq != s.msgSeq {
      assert Wholes(msgs, r.msgSeq - first) == handed + [r.pending];
      assert r.pending != [];
    }
  }

  lemma QueuedDelivers(queue: seq<Fragment>, f: Fragment, capacity: int, m: Message)
    requires QueueInv(queue) && f.WireSized() && capacity < 0x100_0000
    requires CutOf(f, m) && (forall e :: e in queue ==> CutOf(e, m))
    requires Reassemble(queue, f, capacity).Queued?
    ensures var q := Reassemble(queue, f, capacity).queue;
      && q != [] && QueueInv(q) && (forall e :: e in q ==> CutOf(e, m))
      && (Complete(q[0]) ==> q[0] == m.Whole())
  {
    var q := Reassemble(queue, f, capacity).queue;
    ReassembleKeepsInvariant(queue, f, capacity);
    ReassembleCut(queue, f, capacity, m);
    CompleteIffCovered(q, m);
  }

  lemma StepDelivers(s: RxState, e: Event, size: nat, handed: seq<seq<byte>>, msgs: seq<Message>, first: nat)
    requires size < 0x100_0000
    requires PeerMessages(msgs, first) && DeliveryInv(s, handed, msgs, first) && PeerEvent(e, msgs, first)
    ensures DeliveryInv(Step(s, e, size).0, handed + Step(s, e, size).1, msgs, first)
  {
    assert handed + [] == handed;
    if e.Process? && s.pending == [] && s.record != [] {
      hide ProcessHandshake, ProcessOther, PeerRecord, QueueInv;
      if s.contentType == TYPE_HANDSHAKE {
        HandshakeDelivers(s, size, handed, msgs, first);
      } else {
        OtherDelivers(s, handed, msgs, first);
      }
    }
  }

  lemma OtherDelivers(s: RxState, handed: seq<seq<byte>>, msgs: seq<Message>, first: nat)
    requires DeliveryInv(s, handed, msgs, first) && s.contentType != TYPE_HANDSHAKE
    ensures DeliveryInv(ReceiveSpec.ProcessOther(s).next, handed, msgs, first)
    ensures ReceiveSpec.ProcessOther(s).next.contentType == s.contentType
  {
    hide PeerRecord, CutOf;
  }

  lemma HandshakeDelivers(s: RxState, size: nat, handed: seq<seq<byte>>, msgs: seq<Message>, first: nat)
    requires size < 0x100_0000 && s.contentType == TYPE_HANDSHAKE && s.pending == []
    requires PeerMessages(msgs, first) && DeliveryInv(s, handed, msgs, first)
    ensures var r := ProcessHandshake(s, size).next;
      DeliveryInv(r, handed + if r.pending != [] then [r.pending] else [], msgs, first)
  {
    hide Load24, QueueInv, PeerMessages, ProcessFragment, CutOf;
    if Framed(s.record) {
      var f := Decode(s.record, 0);
      DecodeSized(s.record, 0);
      ProcessFragmentDelivers(s.(record := s.record[HEADER_LEN + |f.data|..]), f, size, handed, msgs, first);
    } else {
      assert handed + [] == handed;
    }
  }

  /** Final state and everything handed up over a run. */
  function Run(s: RxState, events: seq<Event>, size: nat): (r: (RxState, seq<seq<byte>>))
    requires Gapped(s.queue)
    ensures Gapped(r.0.queue)
  {
    if events == [] then (s, [])
    else
      var (mid, out) := Run(s, events[..|events| - 1], size);
      StepGapped(mid, events[|events| - 1], size);
      var (next, more) := Step(mid, events[|events| - 1], size);
      (next, out + more)
  }

  lemma StepGapped(s: RxState, e: Event, size: nat)
    requires Gapped(s.queue)
    ensures Gapped(Step(s, e, size).0.queue)
  {
    if e.Process? && s.contentType == TYPE_HANDSHAKE && Framed(s.record) {
      ReassembleGapped(s.queue, Decode(s.record, 0), size - |s.datagram|);
    }
  }

  /** Over every run of a client the handshake messages handed up are the messages of the
      peer, in order, each once, as far as rxMsgSeq has come; and whatever is queued belongs
      to the message numbered rxMsgSeq. */
  lemma {:induction false} InOrderExactlyOnce(s: RxState, events: seq<Event>, size: nat, msgs: seq<Message>, first: nat)
    requires size < 0x100_0000 && PeerMessages(msgs, first)
    requires s.entity == Client && s.queue == [] && s.record == [] && s.msgSeq == first
    requires forall k :: 0 <= k < |events| ==> PeerEvent(events[k], msgs, first)
    ensures var (end, handed) := Run(s, events, size);
      && first <= end.msgSeq <= first + |msgs|
      && handed == Wholes(msgs, end.msgSeq - first)
      && (forall e :: e in end.queue ==> e.msgSeq == end.msgSeq)
      && DeliveryInv(end, handed, msgs, first)
  {
    if events != [] {
      var init := events[..|events| - 1];
      InOrderExactlyOnce(s, init, size, msgs, first);
      var (mid, out) := Run(s, init, size);
      StepDelivers(mid, events[|events| - 1], size, out, msgs, first);
    }
    var (end, handed) := Run(s, events, size);
    forall e | e in end.queue ensures e.msgSeq == end.msgSeq {
      assert CutOf(e, msgs[end.msgSeq - first]);
    }
  }

  /** Progress: an accepted fragment hands its message up exactly when, with what was
      queued, every octet of it has arrived. */
  lemma HandedUpWhenCovered(s: RxState, f: Fragment, size: nat, m: Message)
    requires QueueInv(s.queue) && f.WireSized() && size < 0x100_0000
    requires CutOf(f, m) && (forall e :: e in s.queue ==> CutOf(e, m)) && s.pending == []
    requires s.entity == Client && f.msgSeq == s.msgSeq && !VersionEnforced(s)
    requires ProcessFragment(s, f, size).status == Ok
    ensures var r := ProcessFragment(s, f, size).next;
      && (r.pending != [] <==>
          forall x :: 0 <= x < |m.body| ==> Covers(s.queue, x) || f.offset <= x < f.End())
      && (r.pending != [] ==> r.pending == Encode(m.Whole()) && r.msgSeq == (s.msgSeq + 1) % 0x1_0000)
  {
    var capacity := size - |s.datagram|;
    var q := Reassemble(s.queue, f, capacity).queue;
    ReassembleKeepsInvariant(s.queue, f, capacity);
    ReassembleCut(s.queue, f, capacity, m);
    CompleteIffCovered(q, m);
    forall x ensures Covers(q, x) <==> Covers(s.queue, x) || f.offset <= x < f.End() {
      ReassembleCovers(s.queue, f, capacity, x);
    }
  }

  // ----- The receive loop -----

  /** One iteration of dtlsReadProtocolData. */
  datatype Iteration =
    | Delivered(s: RxState)
    | Failed(s: RxState)
    | NeedDatagram(s: RxState)
    | Continue(s: RxState)

  function Iterate(s: RxState, e: Decryptor, unseen: bool, size: nat): Iteration
    requires Gapped(s.queue)
  {
    if s.pending != [] then Delivered(s)
    else if s.record != [] then Continue(ProcessRecord(s, size).next)
    else if s.datagram != [] then
      var (next, status, _) := ReadRecord(s, e, unseen);
      if status == RecordOverflow then Failed(next) else Continue(next)
    else NeedDatagram(s)
  }

  function Measure(s: RxState): nat { |s.datagram| + |s.record| }

  /** Both version checks of the non-handshake branch leave the record where it is. */
  predicate Stuck(s: RxState) {
    && s.pending == [] && s.record != []
    && s.recordVersion != TranslateVersion(s.version)
    && (|| (s.contentType == TYPE_CHANGE_CIPHER_SPEC && s.state == ChangeCipherSpecState(s.entity))
        || (s.contentType == TYPE_APPLICATION_DATA && s.state == STATE_APPLICATION_DATA))
  }

  /** An iteration that goes on consumes something exactly when it is not stuck, and a stuck
      one changes nothing. */
  lemma ProgressIffNotStuck(s: RxState, e: Decryptor, unseen: bool, size: nat)
    requires Gapped(s.queue) && NeverLengthens(e)
    requires Iterate(s, e, unseen, size).Continue?
    ensures Gapped(Iterate(s, e, unseen, size).s.queue)
    ensures Measure(Iterate(s, e, unseen, size).s) < Measure(s) <==> !Stuck(s)
    ensures Stuck(s) ==> Iterate(s, e, unseen, size).s == s
  {
    hide ProcessRecord, ReadRecord, Stuck;
    if s.record != [] {
      StepGapped(s, Process, size);
      ProcessProgress(s, size);
    } else {
      ReadProgress(s, e, unseen);
    }
  }

  lemma ProcessProgress(s: RxState, size: nat)
    requires Gapped(s.queue) && s.record != [] && s.pending == []
    ensures var next := ProcessRecord(s, size).next;
      && (Measure(next) < Measure(s) <==> !Stuck(s)) && (Stuck(s) ==> next == s)
  {
    if s.contentType == TYPE_HANDSHAKE {
      hide Load24, Reassemble;
      assert |ProcessHandshake(s, size).next.record| < |s.record|;
      assert ProcessHandshake(s, size).next.datagram == s.datagram;
    }
  }

  lemma ReadProgress(s: RxState, e: Decryptor, unseen: bool)
    requires s.record == [] && s.datagram != [] && NeverLengthens(e)
    ensures Measure(ReadRecord(s, e, unseen).0) < Measure(s) && ReadRecord(s, e, unseen).0.queue == s.queue
    ensures !Stuck(s)
  {
    hide Load16;
    if RecordFramed(s.datagram) {
      var n := RECORD_HEADER_LEN + Load16(s.datagram, 11);
      assert |s.datagram[RECORD_HEADER_LEN..n]| == n - RECORD_HEADER_LEN;
    }
  }

  /** The outcome of n iterations between two datagram reads; unseen gives the verdicts of
      the replay check. */
  function Loop(s: RxState, e: Decryptor, unseen: nat -> bool, size: nat, n: nat): Iteration
    requires Gapped(s.queue) && NeverLengthens(e)
    decreases n
  {
    var r := Iterate(s, e, unseen(n), size);
    if n == 0 || !r.Continue? then r
    else
      ProgressIffNotStuck(s, e, unseen(n), size);
      Loop(r.s, e, unseen, size, n - 1)
  }

  /** A stuck record is never left: the loop spins on it for any number of iterations. */
  lemma {:induction false} StuckForever(s: RxState, e: Decryptor, unseen: nat -> bool, size: nat, n: nat)
    requires Gapped(s.queue) && NeverLengthens(e) && Stuck(s)
    ensures Loop(s, e, unseen, size, n) == Continue(s)
    decreases n
  {
    ProgressIffNotStuck(s, e, unseen(n), size);
    if n > 0 {
      StuckForever(s, e, unseen, size, n - 1);
    }
  }

  /** Whatever has arrived is worked off within Measure(s) iterations, or the loop has run
      into a stuck record. */
  lemma {:induction false} DrainsOrSticks(s: RxState, e: Decryptor, unseen: nat -> bool, size: nat, n: nat)
    requires Gapped(s.queue) && NeverLengthens(e) && n >= Measure(s)
    ensures var r := Loop(s, e, unseen, size, n); r.Continue? ==> Stuck(r.s)
    decreases n
  {
    hide ProcessRecord, ReadRecord, Stuck, NeverLengthens, Iterate, Measure;
    var r := Iterate(s, e, unseen(n), size);
    if r.Continue? {
      ProgressIffNotStuck(s, e, unseen(n), size);
      if Stuck(s) {
        StuckForever(s, e, unseen, size, n);
      } else if n > 0 {
        DrainsOrSticks(r.s, e, unseen, size, n - 1);
      }
    }
  }

  /** Every ChangeCipherSpec and application-data record in the datagram carries version v. */
  predicate CarriesVersion(d: seq<byte>, v: nat)
    decreases |d|
  {
    RecordFramed(d) ==>
      && (d[0] == TYPE_CHANGE_CIPHER_SPEC || d[0] == TYPE_APPLICATION_DATA ==> Load16(d, 1) == v)
      && CarriesVersion(d[RECORD_HEADER_LEN + Load16(d, 11)..], v)
  }

  ghost predicate VersionInv(s: RxState) {
    && CarriesVersion(s.datagram, TranslateVersion(s.version))
    && (s.record != [] && (s.contentType == TYPE_CHANGE_CIPHER_SPEC || s.contentType == TYPE_APPLICATION_DATA) ==>
        s.recordVersion == TranslateVersion(s.version))
  }

  lemma IterateKeepsVersion(s: RxState, e: Decryptor, unseen: bool, size: nat)
    requires Gapped(s.queue) && VersionInv(s)
    requires Iterate(s, e, unseen, size).Continue?
    ensures VersionInv(Iterate(s, e, unseen, size).s)
  {
    hide ProcessRecord, ReadRecord, CarriesVersion;
    if s.record == [] {
      ReadKeepsVersion(s, e, unseen);
    } else {
      ProcessKeepsVersion(s, size);
    }
  }

  lemma ReadKeepsVersion(s: RxState, e: Decryptor, unseen: bool)
    requires VersionInv(s) && s.record == []
    ensures VersionInv(ReadRecord(s, e, unseen).0)
  {
    hide Load16;
    if RecordFramed(s.datagram) {
      HeaderFields(s.datagram);
    }
  }

  lemma ProcessKeepsVersion(s: RxState, size: nat)
    requires Gapped(s.queue) && VersionInv(s)
    ensures VersionInv(ProcessRecord(s, size).next)
  {
    hide CarriesVersion, Accept, Screened, Load24, Rebases, Reassemble;
    if s.contentType == TYPE_HANDSHAKE && Framed(s.record) {
      var f := Decode(s.record, 0);
      AcceptKeepsVersion(Rebased(s.(record := s.record[HEADER_LEN + |f.data|..]), f), f, size);
    }
  }

  lemma AcceptKeepsVersion(s: RxState, f: Fragment, size: nat)
    requires Gapped(s.queue)
    ensures var next := Accept(s, f, size).next;
      && next.datagram == s.datagram && next.version == s.version && next.contentType == s.contentType
      && next.record == s.record && next.recordVersion == s.recordVersion
  {
  }

  lemma HeaderFields(d: seq<byte>)
    requires |d| >= 11
    ensures d[..11][0] == d[0] && Load16(d[..11], 1) == Load16(d, 1)
  {
  }

  /** With matching versions a datagram of any content is drained in finitely many
      iterations: the loop delivers, fails, or asks for the next datagram. */
  lemma {:induction false} Drains(s: RxState, e: Decryptor, unseen: nat -> bool, size: nat, n: nat)
    requires Gapped(s.queue) && NeverLengthens(e) && n >= Measure(s) && VersionInv(s)
    ensures !Loop(s, e, unseen, size, n).Continue?
    decreases n
  {
    hide ProcessRecord, ReadRecord, NeverLengthens, Iterate, Measure, CarriesVersion;
    var r := Iterate(s, e, unseen(n), size);
    if r.Continue? {
      ProgressIffNotStuck(s, e, unseen(n), size);
      IterateKeepsVersion(s, e, unseen(n), size);
      Drains(r.s, e, unseen, size, n - 1);
    }
  }

  /** Processing a record never makes queue and record together longer. */
  lemma ProcessRecordShrinks(s: RxState, size: nat)
    requires QueueInv(s.queue) && size < 0x100_0000
    ensures var next := ProcessRecord(s, size).next;
      && QueueInv(next.queue) && next.datagram == s.datagram
      && |EncodeQueue(next.queue)| + |next.record| <= |EncodeQueue(s.queue)| + |s.record|
  {
    hide Load24, Accept, EncodeQueue, Screened, AllWireSized, OneMessage, Gapped;
    if s.contentType == TYPE_HANDSHAKE && Framed(s.record) {
      var f := Decode(s.record, 0);
      DecodeSized(s.record, 0);
      var t := s.(record := s.record[HEADER_LEN + |f.data|..]);
      AcceptShrinks(Rebased(t, f), f, size);
    }
    EmptyQueue();
  }

  lemma EmptyQueue()
    ensures EncodeQueue([]) == [] && QueueInv([])
  {
  }

  lemma AcceptShrinks(s: RxState, f: Fragment, size: nat)
    requires QueueInv(s.queue) && size < 0x100_0000 && f.WireSized()
    ensures var next := Accept(s, f, size).next;
      && QueueInv(next.queue) && next.datagram == s.datagram && next.record == s.record
      && |EncodeQueue(next.queue)| <= |EncodeQueue(s.queue)| + |Encode(f)|
  {
    var capacity := size - |s.datagram|;
    if Reassemble(s.queue, f, capacity).Queued? {
      ReassembleKeepsInvariant(s.queue, f, capacity);
    }
  }
}
