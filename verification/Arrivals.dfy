/** What the receive loop does with an authentic record in front of a datagram. */
module Arrivals {
  import opened Bytes
  import opened Fragments
  import opened Reassembly
  import opened ReassemblyBuffer
  import opened ReceiveSpec
  import opened ReceiveRuns
  import opened ReceiveLoop
  import opened FlightSpec
  import Replay

  /** The receiver is idle but for a datagram that starts with this record, which is of the current
      epoch, authentic, and new to the window. */
  ghost predicate Arrived(s: RxState, v: Replay.View, w: Sealed, rest: seq<byte>, c: Cipher, width: nat,
                          enabled: bool) {
    && Gapped(s.queue) && s.pending == [] && s.record == [] && s.datagram == w.Octets() + rest
    && SealedBy(w, c) && 0 < |w.record.payload| <= MAX_RECORD_LENGTH && s.epoch == w.record.epoch
    && NeverLengthens(Opener(c)) && v.Passes(width, enabled, SeqNum(s.datagram))
  }

  /** The state when the record has been read. */
  function WithRecord(s: RxState, r: Record, rest: seq<byte>): RxState {
    s.(datagram := rest, contentType := r.contentType, recordVersion := r.version, record := r.payload)
  }

  /** The record is read, and lies right in front of the rest of the datagram. */
  lemma RecordRead(s: RxState, v: Replay.View, w: Sealed, rest: seq<byte>, c: Cipher, at: int, size: nat,
                   width: nat, enabled: bool)
    requires Arrived(s, v, w, rest, c, width, enabled)
    ensures var after := v.Validated(SeqNum(s.datagram));
      WorkOff(s, v, Opener(c), at, size, width, enabled)
      == WorkOff(WithRecord(s, w.record, rest), after, Opener(c), size - |rest| - |w.body|, size, width, enabled)
  {
    hide *;
    ArrivedRead(s, v, w, rest, c, at, size, width, enabled);
    WorkOffRead(s, v, Opener(c), at, size, width, enabled);
  }

  lemma ArrivedRead(s: RxState, v: Replay.View, w: Sealed, rest: seq<byte>, c: Cipher, at: int, size: nat,
                    width: nat, enabled: bool)
    requires Arrived(s, v, w, rest, c, width, enabled)
    ensures Gapped(s.queue) && NeverLengthens(Opener(c)) && s.pending == [] && s.record == [] && s.datagram != []
    ensures ReadRecord(s, Opener(c), v.Passes(width, enabled, SeqNum(s.datagram)))
      == (WithRecord(s, w.record, rest), Ok, true)
    ensures NextPlace(s, at, size) == size - |rest| - |w.body|
  {
    hide ReadRecord, Load16, NeverLengthens, RecordBytes, SeqNum, Gapped;
    ReadBack(s, w, c, rest);
    FrontRecord(s.datagram, w, rest);
  }

  lemma ArrivedParts(s: RxState, v: Replay.View, w: Sealed, rest: seq<byte>, c: Cipher, width: nat, enabled: bool)
    requires Arrived(s, v, w, rest, c, width, enabled)
    ensures SealedBy(w, c) && NeverLengthens(Opener(c)) && w.record.payload != [] && s.record == [] && s.pending == []
    ensures var t := WithRecord(s, w.record, rest);
      t.record == w.record.payload && t.pending == [] && t.datagram == rest && t.queue == s.queue && Gapped(s.queue)
  {
  }

  // ----- Handshake fragments -----

  /** The record holds the fragment, and nothing else. */
  predicate HoldsFragment(r: Record, f: Fragment) {
    r.contentType == TYPE_HANDSHAKE && r.payload == Encode(f) && f.WireSized()
  }

  lemma RecordIs(f: Fragment)
    requires f.WireSized()
    ensures Framed(Encode(f)) && Decode(Encode(f), 0) == f && Encode(f)[HEADER_LEN + |f.data|..] == []
    ensures Load24(Encode(f), 9) == |f.data|
  {
    var r := Encode(f);
    assert r[0..0 + |r|] == r;
    DecodeEncode(r, 0, f);
  }

  /** What becomes of the state behind the fragment. */
  function Passed(s: RxState, r: Record, rest: seq<byte>): RxState {
    WithRecord(s, r, rest).(record := [])
  }

  /** The step on the record is the step on the fragment. */
  lemma FragmentStep(s: RxState, r: Record, rest: seq<byte>, f: Fragment, place: int, size: nat)
    requires Gapped(s.queue) && HoldsFragment(r, f)
    ensures var (t, u) := (WithRecord(s, r, rest), Passed(s, r, rest));
      && !Stuck(t) && ProcessRecord(t, size) == ProcessFragment(u, f, size)
      && NextPlace(t, place, size) == place + |Encode(f)|
      && (Clear(t, place, size) <==> ClearOfQueue(u, f, place, size))
      && (Defined(t, place, size) <==>
            (Screened(u, f) == Ok && Reassemble(u.queue, f, size - |rest|).Queued? ==>
               Apart(u.queue, f, place, size, size)))
      && u.pending == s.pending && u.record == [] && u.datagram == rest && u.queue == s.queue && u.entity == s.entity
  {
    RecordIs(f);
    hide Decode, Load24, Encode, Reassemble, Apart, Screened, ProcessFragment;
  }

  /** What happens to a fragment that the filters keep out. */
  lemma FragmentRefused(s: RxState, r: Record, rest: seq<byte>, f: Fragment, place: int, size: nat)
    requires Gapped(s.queue) && HoldsFragment(r, f) && s.entity == Client && Screened(Passed(s, r, rest), f) != Ok
    ensures var (t, u) := (WithRecord(s, r, rest), Passed(s, r, rest));
      && Clear(t, place, size) && !Stuck(t) && ProcessRecord(t, size).next == u
      && NextPlace(t, place, size) == place + |Encode(f)|
  {
    FragmentStep(s, r, rest, f, place, size);
    hide Encode, Screened, Clear, Stuck, ProcessRecord, NextPlace;
  }

  /** The state when the fragment is queued. */
  function WithQueue(u: RxState, q: seq<Fragment>): (t: RxState)
    requires q != []
    ensures Gapped(q) ==> Gapped(t.queue)
  {
    if Complete(q[0]) then u.(queue := [], msgSeq := (u.msgSeq + 1) % 0x1_0000, pending := Encode(q[0]))
    else u.(queue := q)
  }

  /** The queue with the fragment. */
  function Queue(q: seq<Fragment>, f: Fragment, capacity: int): (r: seq<Fragment>)
    requires Gapped(q) && Reassemble(q, f, capacity).Queued?
    ensures r != [] && Gapped(r)
  {
    ReassembleGapped(q, f, capacity);
    Reassemble(q, f, capacity).queue
  }

  /** What happens to a fragment that passes every test up to and including the space check. */
  lemma FragmentQueued(s: RxState, r: Record, rest: seq<byte>, f: Fragment, place: int, size: nat)
    requires Gapped(s.queue) && HoldsFragment(r, f) && s.entity == Client
    requires Screened(Passed(s, r, rest), f) == Ok && Reassemble(s.queue, f, size - |rest|).Queued?
    ensures var (t, u) := (WithRecord(s, r, rest), Passed(s, r, rest));
      && !Stuck(t) && NextPlace(t, place, size) == place + |Encode(f)|
      && (Clear(t, place, size) <==> Apart(s.queue, f, place, size - |rest|, size))
      && (Defined(t, place, size) <==> Apart(s.queue, f, place, size, size))
      && ProcessRecord(t, size).next == WithQueue(u, Queue(s.queue, f, size - |rest|))
  {
    hide *;
    FragmentStep(s, r, rest, f, place, size);
    FragmentTaken(Passed(s, r, rest), f, size);
    ClearIs(Passed(s, r, rest), f, place, size);
  }

  lemma FragmentTaken(u: RxState, f: Fragment, size: nat)
    requires Gapped(u.queue) && u.entity == Client && Screened(u, f) == Ok
    requires Reassemble(u.queue, f, size - |u.datagram|).Queued?
    ensures ProcessFragment(u, f, size).next == WithQueue(u, Queue(u.queue, f, size - |u.datagram|))
  {
    hide Encode, Screened, Reassemble, Gapped;
  }

  lemma ClearIs(u: RxState, f: Fragment, place: int, size: nat)
    requires Gapped(u.queue) && Screened(u, f) == Ok && Reassemble(u.queue, f, size - |u.datagram|).Queued?
    requires u.record == []
    ensures ClearOfQueue(u, f, place, size) <==> Apart(u.queue, f, place, size - |u.datagram|, size)
  {
    hide Screened, Reassemble, Apart, Gapped;
  }

  /** A fragment that passes every test up to and including the space check, in a record of its own:
      the loop comes to a block move that is not clear exactly when the closed form says so, and
      otherwise goes on with the queue of the value-level reassembly. */
  lemma FragmentArrives(s: RxState, v: Replay.View, w: Sealed, rest: seq<byte>, c: Cipher, f: Fragment, at: int,
                        size: nat, width: nat, enabled: bool)
    requires Arrived(s, v, w, rest, c, width, enabled) && HoldsFragment(w.record, f) && s.entity == Client
    requires Screened(Passed(s, w.record, rest), f) == Ok && Reassemble(s.queue, f, size - |rest|).Queued?
    ensures var (place, limit) := (size - |rest| - |w.body|, size - |rest|);
      var after := v.Validated(SeqNum(s.datagram));
      WorkOff(s, v, Opener(c), at, size, width, enabled) ==
        if !Apart(s.queue, f, place, limit, size) then
          Outcome(WithRecord(s, w.record, rest), after, place,
                  if Apart(s.queue, f, place, size, size) then Garbled else Overrun)
        else
          WorkOff(WithQueue(Passed(s, w.record, rest), Queue(s.queue, f, limit)), after, Opener(c),
                  place + |Encode(f)|, size, width, enabled)
  {
    hide *;
    var t, after, place := WithRecord(s, w.record, rest), v.Validated(SeqNum(s.datagram)), size - |rest| - |w.body|;
    ArrivedParts(s, v, w, rest, c, width, enabled);
    RecordRead(s, v, w, rest, c, at, size, width, enabled);
    FragmentQueued(s, w.record, rest, f, place, size);
    WorkOffKept(t, after, Opener(c), place, size, width, enabled);
    WorkOffProcess(t, after, Opener(c), place, size, width, enabled);
  }
}
