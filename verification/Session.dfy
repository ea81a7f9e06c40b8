/** Whole exchanges as the network sees them: datagrams arrive, the receive loop works them off
    through epoch check, replay window and decryption, and the handshake takes what it hands up. */
module Session {
  import opened Bytes
  import opened Fragments
  import opened Reassembly
  import opened ReceiveSpec
  import opened ReceiveRuns
  import opened ReceiveLoop
  import Replay

  /** The parts of a receiver that stay: buffer, window width, whether the window is on, and the
      decryption engine of each epoch. */
  datatype Setup = Setup(size: nat, width: nat, enabled: bool, engines: nat -> Decryptor)

  ghost predicate Usable(x: Setup) {
    x.size < 0x100_0000 && forall epoch :: NeverLengthens(x.engines(epoch))
  }

  /** Receive state, replay window, place of the unread record; over says that the loop ended with
      an error, or would spin or make a block move that is not clear. */
  datatype Endpoint = Endpoint(s: RxState, window: Replay.View, at: int, over: bool)

  /** A datagram arrives; or the caller takes the pending data and the handshake moves on, perhaps
      to another epoch. */
  datatype Happening =
    | Arrives(datagram: seq<byte>)
    | Taken(state: nat, version: nat, epoch: nat)

  /** The loop goes on until it asks for a datagram or has data for the caller; with what it hands
      up if that is a handshake message. */
  function Advance(p: Endpoint, x: Setup): (r: (Endpoint, seq<seq<byte>>))
    requires Gapped(p.s.queue) && NeverLengthens(x.engines(p.s.epoch))
    ensures Gapped(r.0.s.queue)
  {
    WorkOffGapped(p.s, p.window, x.engines(p.s.epoch), p.at, x.size, x.width, x.enabled);
    var o := WorkOff(p.s, p.window, x.engines(p.s.epoch), p.at, x.size, x.width, x.enabled);
    (Endpoint(o.next, o.window, o.at, !o.end.HandedUp? && !o.end.Exhausted?), NewMessage(p.s, o.next))
  }

  /** What is new between the two states for the handshake. */
  function NewMessage(s: RxState, t: RxState): seq<seq<byte>> {
    if s.pending == [] && t.pending != [] && t.contentType == TYPE_HANDSHAKE then [t.pending] else []
  }

  /** A datagram is read only when everything before has been worked off. */
  function Turn(p: Endpoint, h: Happening, x: Setup): (r: (Endpoint, seq<seq<byte>>))
    requires Gapped(p.s.queue) && forall epoch :: NeverLengthens(x.engines(epoch))
    ensures Gapped(r.0.s.queue)
  {
    if p.over then (p, [])
    else match h
      case Arrives(d) =>
        if p.s.pending == [] && p.s.record == [] && p.s.datagram == [] then
          Advance(p.(s := p.s.(datagram := d)), x)
        else (p, [])
      case Taken(state, version, epoch) =>
        var window := if epoch == p.s.epoch then p.window else Replay.View(0, {});
        Advance(p.(s := p.s.(pending := [], state := state, version := version, epoch := epoch), window := window), x)
  }

  /** Where an exchange ends, and all handshake messages handed up during it. */
  function Exchange(p: Endpoint, hs: seq<Happening>, x: Setup): (r: (Endpoint, seq<seq<byte>>))
    requires Gapped(p.s.queue) && forall epoch :: NeverLengthens(x.engines(epoch))
    ensures Gapped(r.0.s.queue)
  {
    if hs == [] then (p, [])
    else
      var (mid, out) := Exchange(p, hs[..|hs| - 1], x);
      var (next, more) := Turn(mid, hs[|hs| - 1], x);
      (next, out + more)
  }

  lemma {:induction false} WorkOffGapped(s: RxState, v: Replay.View, e: Decryptor, at: int, size: nat, w: nat,
                                         enabled: bool)
    requires Gapped(s.queue) && NeverLengthens(e)
    ensures Gapped(WorkOff(s, v, e, at, size, w, enabled).next.queue)
    decreases Measure(s)
  {
    hide *;
    WorkOffEnds(s, v, e, at, size, w, enabled);
    if s.pending == [] && s.record != [] {
      WorkOffKept(s, v, e, at, size, w, enabled);
      WorkOffProcess(s, v, e, at, size, w, enabled);
      if Clear(s, at, size) && !Stuck(s) {
        WorkOffGapped(ProcessRecord(s, size).next, v, e, NextPlace(s, at, size), size, w, enabled);
      }
    } else if s.pending == [] && s.datagram != [] {
      var unseen := v.Passes(w, enabled, SeqNum(s.datagram));
      var (next, status, taken) := ReadRecord(s, e, unseen);
      ReadKeepsQueue(s, e, unseen);
      WorkOffRead(s, v, e, at, size, w, enabled);
      if status != RecordOverflow {
        WorkOffGapped(next, if taken then v.Validated(SeqNum(s.datagram)) else v, e, NextPlace(s, at, size), size, w,
                      enabled);
      }
    }
  }

  lemma ReadKeepsQueue(s: RxState, e: Decryptor, unseen: bool)
    ensures ReadRecord(s, e, unseen).0.queue == s.queue
  {
  }

  // ----- What arrives -----

  /** What the engine makes of the record in front. */
  function Opens(d: seq<byte>, e: Decryptor): Opened
    requires RecordFramed(d)
  {
    var body := d[RECORD_HEADER_LEN..RECORD_HEADER_LEN + Load16(d, 11)];
    if e.isNull then Opened(body) else e.dec(d[..11], body)
  }

  /** Every handshake record in the datagram that the engine of its epoch opens carries fragments
      of the peer. */
  predicate PeerDatagram(d: seq<byte>, engines: nat -> Decryptor, msgs: seq<Message>, first: nat)
    decreases |d|
  {
    RecordFramed(d) ==>
      && (var plain := Opens(d, engines(Load16(d, 3)));
          d[0] == TYPE_HANDSHAKE && plain.Opened? ==> PeerRecord(plain.plaintext, msgs, first))
      && PeerDatagram(d[RECORD_HEADER_LEN + Load16(d, 11)..], engines, msgs, first)
  }

  lemma ReadDelivers(s: RxState, engines: nat -> Decryptor, unseen: bool, handed: seq<seq<byte>>,
                     msgs: seq<Message>, first: nat)
    requires DeliveryInv(s, handed, msgs, first) && s.record == []
    requires PeerDatagram(s.datagram, engines, msgs, first)
    ensures var next := ReadRecord(s, engines(s.epoch), unseen).0;
      && DeliveryInv(next, handed, msgs, first) && PeerDatagram(next.datagram, engines, msgs, first)
      && next.epoch == s.epoch && next.pending == s.pending
  {
    if RecordFramed(s.datagram) {
      HeaderSlice(s.datagram);
      ReadPeer(s, engines, unseen, msgs, first);
    }
    hide PeerDatagram, PeerRecord, QueueInv, CutOf, Load16, ReadRecord;
  }

  lemma ReadPeer(s: RxState, engines: nat -> Decryptor, unseen: bool, msgs: seq<Message>, first: nat)
    requires RecordFramed(s.datagram) && s.record == []
    requires PeerDatagram(s.datagram, engines, msgs, first)
    ensures var next := ReadRecord(s, engines(s.epoch), unseen).0;
      && (next.contentType == TYPE_HANDSHAKE ==> PeerRecord(next.record, msgs, first))
      && PeerDatagram(next.datagram, engines, msgs, first)
      && next == s.(datagram := next.datagram, contentType := next.contentType, recordVersion := next.recordVersion,
                    record := next.record)
  {
    HeaderSlice(s.datagram);
    hide Load16;
  }

  lemma HeaderSlice(d: seq<byte>)
    requires |d| >= 11
    ensures d[..11][0] == d[0] && Load16(d[..11], 3) == Load16(d, 3) && Load16(d[..11], 1) == Load16(d, 1)
  {
  }

  lemma ProcessDelivers(s: RxState, size: nat, handed: seq<seq<byte>>, msgs: seq<Message>, first: nat)
    requires size < 0x100_0000 && PeerMessages(msgs, first) && DeliveryInv(s, handed, msgs, first)
    requires s.pending == [] && s.record != []
    ensures Gapped(s.queue)
    ensures var next := ProcessRecord(s, size).next;
      && DeliveryInv(next, handed + NewMessage(s, next), msgs, first)
      && next.datagram == s.datagram && next.epoch == s.epoch
  {
    StepDelivers(s, Process, size, handed, msgs, first);
    ProcessRest(s, size);
    hide ProcessRecord, DeliveryInv;
  }

  lemma ProcessRest(s: RxState, size: nat)
    requires Gapped(s.queue)
    ensures var next := ProcessRecord(s, size).next;
      next.datagram == s.datagram && next.epoch == s.epoch && next.contentType == s.contentType
  {
    hide Load24, Reassemble, Screened;
  }

  lemma DeliveryGapped(s: RxState, handed: seq<seq<byte>>, msgs: seq<Message>, first: nat)
    requires DeliveryInv(s, handed, msgs, first)
    ensures Gapped(s.queue) && handed + [] == handed
  {
  }

  /** Working off a datagram hands up at most the next message of the peer. */
  lemma {:induction false} WorkOffDelivers(s: RxState, v: Replay.View, engines: nat -> Decryptor, at: int, size: nat,
                                           w: nat,
                                          enabled: bool, handed: seq<seq<byte>>, msgs: seq<Message>, first: nat)
    requires size < 0x100_0000 && PeerMessages(msgs, first) && NeverLengthens(engines(s.epoch))
    requires DeliveryInv(s, handed, msgs, first) && Gapped(s.queue) && PeerDatagram(s.datagram, engines, msgs, first)
    ensures var r := WorkOff(s, v, engines(s.epoch), at, size, w, enabled).next;
      DeliveryInv(r, handed + NewMessage(s, r), msgs, first) && PeerDatagram(r.datagram, engines, msgs, first)
    decreases Measure(s)
  {
    hide *;
    var e := engines(s.epoch);
    NoMessage(s);
    DeliveryGapped(s, handed, msgs, first);
    WorkOffEnds(s, v, e, at, size, w, enabled);
    if s.pending == [] && s.record != [] {
      WorkOffKept(s, v, e, at, size, w, enabled);
      WorkOffProcess(s, v, e, at, size, w, enabled);
      ProcessDelivers(s, size, handed, msgs, first);
      if Clear(s, at, size) && !Stuck(s) {
        var next, place := ProcessRecord(s, size).next, NextPlace(s, at, size);
        WorkOffDelivers(next, v, engines, place, size, w, enabled, handed + NewMessage(s, next), msgs, first);
        WorkOffEnds(next, v, e, place, size, w, enabled);
        MessageOnce(s, next, WorkOff(next, v, e, place, size, w, enabled).next, handed);
      }
    } else if s.pending == [] && s.datagram != [] {
      var unseen := v.Passes(w, enabled, SeqNum(s.datagram));
      var (next, status, taken) := ReadRecord(s, e, unseen);
      WorkOffRead(s, v, e, at, size, w, enabled);
      ReadDelivers(s, engines, unseen, handed, msgs, first);
      if status != RecordOverflow {
        var after, place := if taken then v.Validated(SeqNum(s.datagram)) else v, NextPlace(s, at, size);
        WorkOffDelivers(next, after, engines, place, size, w, enabled, handed, msgs, first);
        SameStart(s, next, WorkOff(next, after, e, place, size, w, enabled).next);
      } else {
        SameStart(s, s, next);
        StillNothing(s, next);
      }
    }
  }

  lemma NoMessage(s: RxState)
    ensures NewMessage(s, s) == []
  {
  }

  lemma StillNothing(s: RxState, t: RxState)
    requires t.pending == []
    ensures NewMessage(s, t) == []
  {
  }

  lemma SameStart(s: RxState, t: RxState, r: RxState)
    requires s.pending == t.pending
    ensures NewMessage(s, r) == NewMessage(t, r)
  {
  }

  /** The loop stops as soon as it has something for the caller. */
  lemma MessageOnce(s: RxState, t: RxState, r: RxState, handed: seq<seq<byte>>)
    requires s.pending == [] && (t.pending != [] ==> r == t)
    ensures handed + NewMessage(s, t) + NewMessage(t, r) == handed + NewMessage(s, r)
  {
  }

  // ----- Whole exchanges -----

  ghost predicate Delivering(p: Endpoint, x: Setup, handed: seq<seq<byte>>, msgs: seq<Message>, first: nat) {
    DeliveryInv(p.s, handed, msgs, first) && PeerDatagram(p.s.datagram, x.engines, msgs, first)
  }

  lemma TurnDelivers(p: Endpoint, h: Happening, x: Setup, handed: seq<seq<byte>>,
                     msgs: seq<Message>, first: nat)
    requires Usable(x) && PeerMessages(msgs, first) && Delivering(p, x, handed, msgs, first)
    requires h.Arrives? ==> PeerDatagram(h.datagram, x.engines, msgs, first)
    ensures Gapped(p.s.queue) && forall epoch :: NeverLengthens(x.engines(epoch))
    ensures Delivering(Turn(p, h, x).0, x, handed + Turn(p, h, x).1, msgs, first)
  {
    hide WorkOff, PeerDatagram, PeerRecord, CutOf, QueueInv, NeverLengthens, PeerMessages;
    DeliveryGapped(p.s, handed, msgs, first);
    if !p.over {
      match h
      case Arrives(d) =>
        var s := p.s.(datagram := d);
        WorkOffDelivers(s, p.window, x.engines, p.at, x.size, x.width, x.enabled, handed, msgs, first);
      case Taken(state, version, epoch) =>
        var s := p.s.(pending := [], state := state, version := version, epoch := epoch);
        var window := if epoch == p.s.epoch then p.window else Replay.View(0, {});
        WorkOffDelivers(s, window, x.engines, p.at, x.size, x.width, x.enabled, handed, msgs, first);
    }
  }

  /** Over every exchange in which no datagram holds a handshake record that is not the peer's, the
      messages handed up are those of the peer, in order, each once, as far as rxMsgSeq has come. */
  lemma {:induction false} ExchangeDelivers(p: Endpoint, hs: seq<Happening>, x: Setup, msgs: seq<Message>, first: nat)
    requires Usable(x) && PeerMessages(msgs, first)
    requires p.s.entity == Client && p.s.queue == [] && p.s.record == [] && p.s.datagram == [] && p.s.msgSeq == first
    requires forall k :: 0 <= k < |hs| && hs[k].Arrives? ==> PeerDatagram(hs[k].datagram, x.engines, msgs, first)
    ensures var (end, handed) := Exchange(p, hs, x);
      && Delivering(end, x, handed, msgs, first)
      && first <= end.s.msgSeq <= first + |msgs| && handed == Wholes(msgs, end.s.msgSeq - first)
  {
    hide *;
    ExchangeIs(p, hs, x);
    if hs == [] {
      DeliveringStart(p, x, msgs, first);
    } else {
      var init := hs[..|hs| - 1];
      ExchangeDelivers(p, init, x, msgs, first);
      var (mid, out) := Exchange(p, init, x);
      TurnDelivers(mid, hs[|hs| - 1], x, out, msgs, first);
    }
    DeliveringMeans(Exchange(p, hs, x).0, x, Exchange(p, hs, x).1, msgs, first);
  }

  lemma ExchangeIs(p: Endpoint, hs: seq<Happening>, x: Setup)
    requires Usable(x) && p.s.queue == []
    ensures Gapped(p.s.queue) && forall epoch :: NeverLengthens(x.engines(epoch))
    ensures if hs == [] then Exchange(p, hs, x) == (p, [])
      else
        var (mid, out) := Exchange(p, hs[..|hs| - 1], x);
        var (next, more) := Turn(mid, hs[|hs| - 1], x);
        Exchange(p, hs, x) == (next, out + more)
  {
    hide Turn, NeverLengthens;
  }

  lemma DeliveringStart(p: Endpoint, x: Setup, msgs: seq<Message>, first: nat)
    requires p.s.entity == Client && p.s.queue == [] && p.s.record == [] && p.s.datagram == [] && p.s.msgSeq == first
    ensures Delivering(p, x, [], msgs, first)
  {
  }

  lemma DeliveringMeans(p: Endpoint, x: Setup, handed: seq<seq<byte>>, msgs: seq<Message>, first: nat)
    requires Delivering(p, x, handed, msgs, first)
    ensures first <= p.s.msgSeq <= first + |msgs| && handed == Wholes(msgs, p.s.msgSeq - first)
  {
  }
}
