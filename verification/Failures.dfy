/** Records as they can arrive for which the receive loop does not end regularly. */
module Failures {
  import opened Bytes
  import opened Fragments
  import opened Reassembly
  import opened ReassemblyMoves
  import opened ReassemblyBuffer
  import opened ReceiveSpec
  import opened ReceiveRuns
  import opened ReceiveLoop
  import opened Protection
  import opened FlightSpec
  import opened Arrivals
  import Replay

  /** A ChangeCipherSpec that is expected, but comes in a record of another version: the loop spins. */
  lemma WrongVersionSpins(s: RxState, v: Replay.View, w: Sealed, c: Cipher, at: int, size: nat, width: nat,
                          enabled: bool)
    requires Arrived(s, v, w, [], c, width, enabled)
    requires w.record.contentType == TYPE_CHANGE_CIPHER_SPEC && s.state == ChangeCipherSpecState(s.entity)
    requires w.record.version != TranslateVersion(s.version)
    ensures WorkOff(s, v, Opener(c), at, size, width, enabled).end == Spinning
  {
    RecordRead(s, v, w, [], c, at, size, width, enabled);
    hide WorkOff, NeverLengthens, SeqNum;
    WorkOffKept(WithRecord(s, w.record, []), v.Validated(SeqNum(s.datagram)), Opener(c), size - |w.body|, size, width,
                enabled);
  }

  /** A record of another type, alone in its datagram. One that is to be handed up is, unless plaintext
      and protected form together are longer than the buffer, when the loop comes to an undefined copy;
      one that only comes in another version makes it spin; any other one is gone without a trace. */
  lemma OtherArrives(s: RxState, v: Replay.View, w: Sealed, c: Cipher, at: int, size: nat, width: nat,
                     enabled: bool)
    requires Arrived(s, v, w, [], c, width, enabled) && w.record.contentType != TYPE_HANDSHAKE
    ensures var r, t := WorkOff(s, v, Opener(c), at, size, width, enabled), WithRecord(s, w.record, []);
      if HandsUp(t) then
        && (r.end == Overrun <==> |w.record.payload| + |w.body| > size)
        && (r.end != Overrun ==>
              && r.end == HandedUp
              && r.next == t.(pending := w.record.payload, record := [], queue := []))
      else if HandsUp(t.(recordVersion := TranslateVersion(s.version))) then r.end == Spinning
      else r.end == Exhausted && r.next == t.(record := [])
  {
    hide *;
    var t, after, place := WithRecord(s, w.record, []), v.Validated(SeqNum(s.datagram)), size - |w.body|;
    ArrivedParts(s, v, w, [], c, width, enabled);
    RecordRead(s, v, w, [], c, at, size, width, enabled);
    OtherClear(s, w.record, place, size);
    WorkOffKept(t, after, Opener(c), place, size, width, enabled);
    WorkOffProcess(t, after, Opener(c), place, size, width, enabled);
    if Clear(t, place, size) && !Stuck(t) {
      WorkOffEnds(ProcessRecord(t, size).next, after, Opener(c), NextPlace(t, place, size), size, width, enabled);
    }
  }

  lemma OtherClear(s: RxState, r: Record, place: int, size: nat)
    requires Gapped(s.queue) && r.contentType != TYPE_HANDSHAKE && r.payload != [] && s.pending == []
    ensures var t := WithRecord(s, r, []);
      var next := ProcessRecord(t, size).next;
      && (Clear(t, place, size) <==> Defined(t, place, size))
      && if HandsUp(t) then
           && !Stuck(t) && (Clear(t, place, size) <==> |r.payload| <= place)
           && next == t.(pending := r.payload, record := [], queue := []) && next.pending != []
         else
           && Clear(t, place, size)
           && (Stuck(t) <==> HandsUp(t.(recordVersion := TranslateVersion(s.version))))
           && (!Stuck(t) ==>
                 next == t.(record := []) && next.pending == [] && next.record == [] && next.datagram == [])
  {
    OtherOutcome(WithRecord(s, r, []));
    hide ProcessOther;
  }

  /** Two octets of application data reach a client that has finished its handshake. */
  lemma DataHandedUp()
    ensures var w := Unsealed(23, 0xFEFD, [104, 105], 1);
      var s := Waiting().(state := 30, datagram := w.Octets());
      var r := WorkOff(s, Replay.View(0, {}), Opener(NoCipher()), 0, MIN_BUFFER, 64, true);
      r.end == HandedUp && r.next.pending == [104, 105]
  {
    var w := Unsealed(23, 0xFEFD, [104, 105], 1);
    var s := Waiting().(state := 30, datagram := w.Octets());
    hide WorkOff, RecordBytes, Load16, Load48;
    assert w.Octets() + [] == w.Octets();
    UnsealedArrives(s, Replay.View(0, {}), 23, 0xFEFD, [104, 105], 1, []);
    OtherArrives(s, Replay.View(0, {}), w, NoCipher(), 0, MIN_BUFFER, 64, true);
  }

  /** A fragment that passes every test up to and including the space check, alone in its datagram and
      unprotected: the loop comes to an undefined block move exactly when the closed form says so, and
      otherwise ends with the queue of the value-level reassembly. */
  lemma FragmentOverrunsIff(s: RxState, v: Replay.View, w: Sealed, c: Cipher, f: Fragment, at: int, size: nat,
                            width: nat, enabled: bool)
    requires Arrived(s, v, w, [], c, width, enabled) && c.suite.Unprotected()
    requires HoldsFragment(w.record, f) && s.entity == Client
    requires Screened(Passed(s, w.record, []), f) == Ok && Reassemble(s.queue, f, size).Queued?
    ensures var r := WorkOff(s, v, Opener(c), at, size, width, enabled);
      && (r.end == Overrun <==> !Apart(s.queue, f, size - |Encode(f)|, size, size)) && r.end != Garbled
      && (r.end != Overrun && !Complete(Queue(s.queue, f, size)[0]) ==>
            r == Outcome(Passed(s, w.record, []).(queue := Queue(s.queue, f, size)),
                         v.Validated(SeqNum(s.datagram)), size, Exhausted))
  {
    hide *;
    ArrivedParts(s, v, w, [], c, width, enabled);
    BodyIs(w, c, f);
    FragmentArrives(s, v, w, [], c, f, at, size, width, enabled);
    var t := WithQueue(Passed(s, w.record, []), Queue(s.queue, f, size));
    TakenFields(s, w.record, Queue(s.queue, f, size), f);
    WorkOffEnds(t, v.Validated(SeqNum(s.datagram)), Opener(c), size, size, width, enabled);
  }

  lemma BodyIs(w: Sealed, c: Cipher, f: Fragment)
    requires SealedBy(w, c) && c.suite.Unprotected() && HoldsFragment(w.record, f)
    ensures w.body == Encode(f)
  {
  }

  lemma TakenFields(s: RxState, r: Record, q: seq<Fragment>, f: Fragment)
    requires q != [] && s.pending == []
    ensures var t := WithQueue(Passed(s, r, []), q);
      if Complete(q[0]) then t.pending != []
      else t == Passed(s, r, []).(queue := q) && t.pending == [] && t.record == [] && t.datagram == []
  {
    hide Complete;
  }

  // ----- Concrete datagrams -----

  function NoCipher(): Cipher {
    Cipher(Suite(NullCipher, 0, false, 0, 0, 0), (h, k, p) => p, (h, b) => Opened(b))
  }

  /** A client in the middle of an initial handshake, without anything buffered: HelloVerifyRequest and
      ServerHello have been received. */
  function Waiting(): RxState {
    RxState(Client, STATE_SERVER_HELLO + 1, TLS_VERSION_1_2, 0, [], 2, 0, 0, [], [], [])
  }

  /** An unprotected record. */
  function Unsealed(contentType: byte, version: nat, payload: seq<byte>, seqNum: nat): Sealed {
    Sealed(Record(contentType, version, 0, payload), seqNum, payload)
  }

  /** The fragment in an unprotected record of its own. */
  function Alone(f: Fragment, seqNum: nat): Sealed {
    Unsealed(TYPE_HANDSHAKE, DTLS_VERSION_1_2, Encode(f), seqNum)
  }

  lemma UnsealedArrives(s: RxState, v: Replay.View, contentType: byte, version: nat, payload: seq<byte>, seqNum: nat,
                        rest: seq<byte>)
    requires Gapped(s.queue) && s.pending == [] && s.record == [] && s.epoch == 0
    requires s.datagram == Unsealed(contentType, version, payload, seqNum).Octets() + rest
    requires 0 < |payload| < 2000 && version < 0x1_0000 && seqNum < 0x1000 && v.Passes(64, true, seqNum)
    ensures Arrived(s, v, Unsealed(contentType, version, payload, seqNum), rest, NoCipher(), 64, true)
    ensures SeqNum(s.datagram) == seqNum && NoCipher().suite.Unprotected()
  {
    hide RecordBytes, Load48, Load16;
    FrontNumber(s.datagram, Unsealed(contentType, version, payload, seqNum), rest);
  }

  /** It is a ChangeCipherSpec that the client waits for next, and one of DTLS 1.0 arrives. */
  lemma OldVersionSpins()
    ensures var w := Unsealed(TYPE_CHANGE_CIPHER_SPEC, DTLS_VERSION_1_0, [1], 1);
      var s := Waiting().(state := STATE_SERVER_CHANGE_CIPHER_SPEC, datagram := w.Octets());
      WorkOff(s, Replay.View(0, {}), Opener(NoCipher()), 0, MIN_BUFFER, 64, true).end == Spinning
  {
    var w := Unsealed(TYPE_CHANGE_CIPHER_SPEC, DTLS_VERSION_1_0, [1], 1);
    var s := Waiting().(state := STATE_SERVER_CHANGE_CIPHER_SPEC, datagram := w.Octets());
    hide WorkOff, RecordBytes, Load16, Load48;
    assert w.Octets() + [] == w.Octets();
    UnsealedArrives(s, Replay.View(0, {}), TYPE_CHANGE_CIPHER_SPEC, DTLS_VERSION_1_0, [1], 1, []);
    WrongVersionSpins(s, Replay.View(0, {}), w, NoCipher(), 0, MIN_BUFFER, 64, true);
  }

  /** An alert record of 600 octets does not lie behind its destination in the least buffer. */
  lemma LongAlertOverruns()
    ensures var w := Unsealed(TYPE_ALERT, DTLS_VERSION_1_2, seq(600, _ => 0), 1);
      WorkOff(Waiting().(datagram := w.Octets()), Replay.View(0, {}), Opener(NoCipher()), 0, MIN_BUFFER, 64, true).end
      == Overrun
  {
    var alert: seq<byte> := seq(600, _ => 0);
    var w := Unsealed(TYPE_ALERT, DTLS_VERSION_1_2, alert, 1);
    var s := Waiting().(datagram := w.Octets());
    hide WorkOff, RecordBytes, Load16, Load48;
    assert w.Octets() + [] == w.Octets();
    UnsealedArrives(s, Replay.View(0, {}), TYPE_ALERT, DTLS_VERSION_1_2, alert, 1, []);
    OtherArrives(s, Replay.View(0, {}), w, NoCipher(), 0, MIN_BUFFER, 64, true);
  }

  /** The first n octets of a Certificate of 600, and its first octet once more. */
  function Beginning(n: nat): Fragment {
    Fragment(11, 600, 2, 0, seq(n, _ => 0))
  }

  /** What the client makes of the beginning in the least buffer. */
  function AfterBeginning(n: nat): ReceiveLoop.Outcome {
    hide *;
    WaitingGapped(Alone(Beginning(n), 1).Octets());
    WorkOff(Waiting().(datagram := Alone(Beginning(n), 1).Octets()), Replay.View(0, {}), Opener(NoCipher()), 0,
            MIN_BUFFER, 64, true)
  }

  lemma WaitingGapped(d: seq<byte>)
    ensures Gapped(Waiting().(datagram := d).queue) && NeverLengthens(Opener(NoCipher()))
  {
  }

  /** It is queued. */
  lemma BeginningQueued(n: nat)
    requires 0 < n <= 501
    ensures var r := AfterBeginning(n);
      && r.end == Exhausted && r.next.queue == [Beginning(n)] && r.next.pending == [] && r.next.record == []
      && r.next.epoch == 0 && r.next.entity == Client && r.window == Replay.View(1, {1}) && r.at == MIN_BUFFER
      && r.next.datagram == [] && r.next.msgSeq == 2 && r.next.state == Waiting().state
      && r.next.version == TLS_VERSION_1_2
  {
    var f, w := Beginning(n), Alone(Beginning(n), 1);
    var s := Waiting().(datagram := w.Octets());
    First(f, MIN_BUFFER);
    hide WorkOff, Encode, RecordBytes, Reassemble, Load48, Load16, DropsFit;
    FirstApart(f, MIN_BUFFER);
    assert w.Octets() + [] == w.Octets();
    UnsealedArrives(s, Replay.View(0, {}), TYPE_HANDSHAKE, DTLS_VERSION_1_2, Encode(f), 1, []);
    FragmentOverrunsIff(s, Replay.View(0, {}), w, NoCipher(), f, 0, MIN_BUFFER, 64, true);
  }

  lemma FirstApart(f: Fragment, size: nat)
    requires 2 * |Encode(f)| <= size
    ensures Apart([], f, size - |Encode(f)|, size, size)
  {
  }

  /** In the least buffer: a client waits for a Certificate of 600 octets, of which 501 arrive, and
      then the first one of them once more. The loop works off the first datagram; the drop of the
      duplicate in the second one reads beyond the buffer. */
  lemma DuplicateOverruns()
    ensures var first := AfterBeginning(501);
      && first.end == Exhausted && first.next.queue == [Beginning(501)]
      && WorkOff(first.next.(datagram := Alone(Beginning(1), 2).Octets()), first.window, Opener(NoCipher()), first.at,
                 MIN_BUFFER, 64, true).end == Overrun
  {
    var e, f := Beginning(501), Beginning(1);
    var w := Alone(f, 2);
    BeginningQueued(501);
    Second(e, f, MIN_BUFFER);
    DropOfDuplicate(501);
    var r := AfterBeginning(501);
    var s := r.next.(datagram := w.Octets());
    hide WorkOff, AfterBeginning, Encode, RecordBytes, Reassemble, Load48, Load16, DropsFit;
    assert w.Octets() + [] == w.Octets();
    UnsealedArrives(s, r.window, TYPE_HANDSHAKE, DTLS_VERSION_1_2, Encode(f), 2, []);
    FragmentOverrunsIff(s, r.window, w, NoCipher(), f, r.at, MIN_BUFFER, 64, true);
  }

  /** Where the drop of the second octet reads and writes. */
  lemma DropOfDuplicate(n: nat)
    requires 0 < n <= 501
    ensures |Encode(Beginning(1))| == 13 && InsertIndex([Beginning(n)], 0) == 1
    ensures forall at: int, limit: int, size: nat ::
      Apart([Beginning(n)], Beginning(1), at, limit, size) <==>
      n + 25 <= at && at + 13 <= limit <= size && 2 * n + 37 <= size && 2 * n + 24 <= limit
  {
    EncodeQueueSingleton(Beginning(n));
    assert InsertIndex([Beginning(n)], 0) == 1;
    assert [Beginning(n)][..1] == [Beginning(n)];
  }

  /** With 500 octets buffered, the duplicate comes together with a second record of 26 octets. The
      drop stays in the buffer, but it reaches into that record. */
  lemma DuplicateGarbles(second: seq<byte>)
    requires |second| == 26
    ensures var first := AfterBeginning(500);
      && first.end == Exhausted && first.next.queue == [Beginning(500)]
      && WorkOff(first.next.(datagram := Alone(Beginning(1), 2).Octets() + second), first.window, Opener(NoCipher()),
                 first.at, MIN_BUFFER, 64, true).end == Garbled
  {
    var e, f := Beginning(500), Beginning(1);
    var w := Alone(f, 2);
    BeginningQueued(500);
    Second(e, f, MIN_BUFFER - 26);
    DropOfDuplicate(500);
    var r := AfterBeginning(500);
    var s := r.next.(datagram := w.Octets() + second);
    hide WorkOff, AfterBeginning, Encode, RecordBytes, Reassemble, Load48, Load16, DropsFit, Apart;
    UnsealedArrives(s, r.window, TYPE_HANDSHAKE, DTLS_VERSION_1_2, Encode(f), 2, second);
    FragmentArrives(s, r.window, w, second, NoCipher(), f, r.at, MIN_BUFFER, 64, true);
  }

  /** What the drop leaves of the second record: its header has become its last 13 octets. */
  lemma SecondRecordShifted(s: seq<byte>, second: seq<byte>)
    requires |s| == MIN_BUFFER && |second| == 26 && s[|s| - 26..] == second
    ensures var n, l := |EncodeQueue([Beginning(500)])|, |Encode(Beginning(1))|;
      && n == 512 && l == 13
      && Moved(s, n, n + l, n)[|s| - 26..] == second[13..] + second[13..]
  {
    EncodeQueueSingleton(Beginning(500));
    hide Encode;
    var t := Moved(s, 512, 525, 512);
    assert t[1011..] == s[1024..1037] + s[1024..];
    assert s[1024..] == s[1011..][13..] && s[1024..1037] == s[1024..];
  }
}
