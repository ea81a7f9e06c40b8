/** Progress: datagrams that bring an expected message, fresh and with room, hand it up. */
module Progress {
  import opened Bytes
  import opened Fragments
  import opened Reassembly
  import opened ReassemblyMoves
  import opened ReassemblyBuffer
  import opened ReceiveSpec
  import opened ReceiveLoop
  import opened FlightSpec
  import opened Arrivals
  import opened Completion
  import opened Session
  import SequenceNumber
  import Replay

  // ----- Fresh record numbers -----

  /** Every number passes the window when its turn comes. */
  predicate FreshRun(v: Replay.View, width: nat, enabled: bool, ns: seq<int>)
    decreases |ns|
  {
    ns == [] || (v.Passes(width, enabled, ns[0]) && FreshRun(v.Validated(ns[0]), width, enabled, ns[1..]))
  }

  function After(v: Replay.View, ns: seq<int>): Replay.View
    decreases |ns|
  {
    if ns == [] then v else After(v.Validated(ns[0]), ns[1..])
  }

  lemma {:induction false} FreshConcat(v: Replay.View, width: nat, enabled: bool, a: seq<int>, b: seq<int>)
    ensures FreshRun(v, width, enabled, a + b) <==>
      FreshRun(v, width, enabled, a) && FreshRun(After(v, a), width, enabled, b)
    ensures After(v, a + b) == After(After(v, a), b)
    decreases |a|
  {
    if a == [] {
      assert a + b == b;
    } else {
      assert (a + b)[1..] == a[1..] + b;
      FreshConcat(v.Validated(a[0]), width, enabled, a[1..], b);
    }
  }

  /** Numbers that are new and no further apart than the window is wide pass in any order. */
  lemma {:induction false} DistinctFresh(v: Replay.View, width: nat, enabled: bool, ns: seq<int>, top: int)
    requires v.right <= top
    requires forall i :: 0 <= i < |ns| ==> top - width < ns[i] <= top && ns[i] !in v.accepted
    requires forall i, j :: 0 <= i < j < |ns| ==> ns[i] != ns[j]
    ensures FreshRun(v, width, enabled, ns)
    decreases |ns|
  {
    if ns != [] {
      DistinctFresh(v.Validated(ns[0]), width, enabled, ns[1..], top);
    }
  }

  // ----- Records that carry fragments -----

  /** The fragment that the record holds. */
  function FragmentIn(r: Record): Fragment {
    if Framed(r.payload) then Decode(r.payload, 0) else Fragment(0, 0, 0, 0, [])
  }

  /** An authentic record of the current epoch with one handshake fragment; if that is of the message,
      it is cut from it and the record has the version that is enforced. */
  ghost predicate Carrier(w: Sealed, s: RxState, m: Message, c: Cipher) {
    var f := FragmentIn(w.record);
    && SealedBy(w, c) && w.record.epoch == s.epoch && w.seqNum < SequenceNumber.MODULUS
    && HoldsFragment(w.record, f) && |w.record.payload| <= MAX_RECORD_LENGTH
    && (f.msgSeq == m.msgSeq ==>
          CutOf(f, m) && (s.state > STATE_SERVER_HELLO ==> w.record.version == TranslateVersion(s.version)))
  }

  ghost predicate Carriers(ws: seq<Sealed>, s: RxState, m: Message, c: Cipher) {
    forall k :: 0 <= k < |ws| ==> Carrier(ws[k], s, m, c)
  }

  /** The fragments of the message among them. */
  function Carried(ws: seq<Sealed>, m: Message): seq<Fragment>
    decreases |ws|
  {
    if ws == [] then []
    else
      var f := FragmentIn(ws[0].record);
      (if f.msgSeq == m.msgSeq then [f] else []) + Carried(ws[1..], m)
  }

  function Numbers(ws: seq<Sealed>): seq<int> {
    seq(|ws|, k requires 0 <= k < |ws| => ws[k].seqNum)
  }

  lemma {:induction false} CarriedConcat(a: seq<Sealed>, b: seq<Sealed>, m: Message)
    ensures Carried(a + b, m) == Carried(a, m) + Carried(b, m) && Numbers(a + b) == Numbers(a) + Numbers(b)
    decreases |a|
  {
    if a == [] {
      assert a + b == b;
    } else {
      assert (a + b)[1..] == a[1..] + b;
      CarriedConcat(a[1..], b, m);
    }
  }

  lemma {:induction false} CarriedHolds(ws: seq<Sealed>, m: Message, k: nat)
    requires k < |ws| && FragmentIn(ws[k].record).msgSeq == m.msgSeq
    ensures FragmentIn(ws[k].record) in Carried(ws, m)
    decreases |ws|
  {
    if k > 0 { CarriedHolds(ws[1..], m, k - 1); }
  }

  // ----- Room -----

  /** What the queue can hold only grows with more fragments. */
  lemma {:induction false} HeldGrows(fs: seq<Fragment>, gs: seq<Fragment>, m: Message)
    ensures Held(fs, m) <= Held(fs + gs, m)
    decreases |gs|
  {
    if gs == [] {
      assert fs + gs == fs;
    } else {
      var init, f := gs[..|gs| - 1], gs[|gs| - 1];
      HeldGrows(fs, init, m);
      assert (fs + gs)[..|fs + gs| - 1] == fs + init && (fs + gs)[|fs + gs| - 1] == f;
      EncodeQueueConcat(Fresh(fs + init), [f]);
      assert Fresh(fs + init) + [] == Fresh(fs + init);
      hide EncodeQueue;
    }
  }

  lemma {:induction false} WholeGrows(fs: seq<Fragment>, gs: seq<Fragment>, m: Message)
    requires Whole(fs, m)
    ensures Whole(fs + gs, m)
    decreases |gs|
  {
    if gs == [] {
      assert fs + gs == fs;
    } else {
      var init, f := gs[..|gs| - 1], gs[|gs| - 1];
      WholeGrows(fs, init, m);
      assert fs + gs == (fs + init) + [f];
      forall x | 0 <= x < |m.body| ensures Covers(fs + gs, x) { CoversSnoc(fs + init, f, x); }
    }
  }

  /** Room for a record: the fragment is clear of the queue, whatever is dropped. */
  lemma RoomApart(q: seq<Fragment>, fs: seq<Fragment>, f: Fragment, m: Message, place: int, limit: int, size: nat)
    requires StandsFor(q, fs, m) && 2 * Held(fs, m) + |Encode(f)| <= place && place + |Encode(f)| <= limit <= size
    ensures Apart(q, f, place, limit, size)
  {
    hide EncodeQueue, Encode, CutOf, DropsFit;
    GappedLength(q, m);
    DropsFitTwice(q, f, limit, size);
  }

  // ----- One datagram -----

  /** A client that waits for the message, idle but for a datagram. */
  predicate Waits(s: RxState, m: Message) {
    && s.entity == Client && s.pending == [] && s.record == [] && s.msgSeq == m.msgSeq && m.msgSeq + 1 < 0x1_0000
  }

  predicate SameSide(s: RxState, t: RxState) {
    s.entity == t.entity && s.epoch == t.epoch && s.state == t.state && s.version == t.version
  }

  lemma CarriersStay(ws: seq<Sealed>, s: RxState, t: RxState, m: Message, c: Cipher)
    requires Carriers(ws, s, m, c) && SameSide(s, t)
    ensures Carriers(ws, t, m, c)
  {
    hide SealedBy, CutOf, HoldsFragment, FragmentIn;
    forall k | 0 <= k < |ws| ensures Carrier(ws[k], t, m, c) {
      assert Carrier(ws[k], s, m, c);
    }
  }

  /** The first record of the datagram has arrived. */
  lemma CarrierArrives(s: RxState, v: Replay.View, ws: seq<Sealed>, m: Message, c: Cipher, width: nat, enabled: bool)
    requires ws != [] && Gapped(s.queue) && s.pending == [] && s.record == [] && s.datagram == Datagram(ws)
    requires Carriers(ws, s, m, c) && NeverLengthens(Opener(c)) && FreshRun(v, width, enabled, Numbers(ws))
    ensures var (w, rest) := (ws[0], Datagram(ws[1..]));
      && Arrived(s, v, w, rest, c, width, enabled) && SeqNum(s.datagram) == w.seqNum
      && Carriers(ws[1..], s, m, c) && FreshRun(v.Validated(w.seqNum), width, enabled, Numbers(ws[1..]))
      && After(v, Numbers(ws)) == After(v.Validated(w.seqNum), Numbers(ws[1..]))
      && |s.datagram| == RECORD_HEADER_LEN + |w.body| + |rest|
      && |Encode(FragmentIn(w.record))| <= |w.body|
  {
    hide *;
    var w, rest := ws[0], Datagram(ws[1..]);
    CarrierFirst(ws, s, m, c);
    CarrierParts(w, s, m, c);
    BodyLonger(w, c);
    DatagramFront(ws);
    FrontNumber(s.datagram, w, rest);
    FreshFirst(v, ws, width, enabled);
    CarriersRest(ws, s, m, c);
    NowArrived(s, v, w, rest, c, width, enabled);
  }

  lemma FreshFirst(v: Replay.View, ws: seq<Sealed>, width: nat, enabled: bool)
    requires ws != [] && FreshRun(v, width, enabled, Numbers(ws))
    ensures v.Passes(width, enabled, ws[0].seqNum)
    ensures FreshRun(v.Validated(ws[0].seqNum), width, enabled, Numbers(ws[1..]))
    ensures After(v, Numbers(ws)) == After(v.Validated(ws[0].seqNum), Numbers(ws[1..]))
  {
    assert Numbers(ws)[0] == ws[0].seqNum && Numbers(ws)[1..] == Numbers(ws[1..]);
  }

  lemma CarriersRest(ws: seq<Sealed>, s: RxState, m: Message, c: Cipher)
    requires ws != [] && Carriers(ws, s, m, c)
    ensures Carriers(ws[1..], s, m, c)
  {
    hide Carrier;
    forall k | 0 <= k < |ws[1..]| ensures Carrier(ws[1..][k], s, m, c) {
      assert ws[1..][k] == ws[k + 1];
    }
  }

  lemma NowArrived(s: RxState, v: Replay.View, w: Sealed, rest: seq<byte>, c: Cipher, width: nat, enabled: bool)
    requires Gapped(s.queue) && s.pending == [] && s.record == [] && s.datagram == w.Octets() + rest
    requires SealedBy(w, c) && 0 < |w.record.payload| <= MAX_RECORD_LENGTH && s.epoch == w.record.epoch
    requires NeverLengthens(Opener(c)) && v.Passes(width, enabled, w.seqNum) && SeqNum(s.datagram) == w.seqNum
    ensures Arrived(s, v, w, rest, c, width, enabled)
    ensures |s.datagram| == RECORD_HEADER_LEN + |w.body| + |rest|
  {
  }

  lemma CarrierParts(w: Sealed, s: RxState, m: Message, c: Cipher)
    requires Carrier(w, s, m, c)
    ensures SealedBy(w, c) && w.record.epoch == s.epoch && 0 < |w.record.payload| <= MAX_RECORD_LENGTH
    ensures w.record.WireSized() && |w.body| < 0x1_0000 && w.seqNum < SequenceNumber.MODULUS
    ensures HoldsFragment(w.record, FragmentIn(w.record)) && w.record.payload == Encode(FragmentIn(w.record))
    ensures FragmentIn(w.record).WireSized() && w.record.contentType == TYPE_HANDSHAKE
  {
  }

  lemma BodyLonger(w: Sealed, c: Cipher)
    requires SealedBy(w, c) && NeverLengthens(Opener(c))
    ensures |w.record.payload| <= |w.body|
  {
    if !c.suite.Unprotected() {
      assert Opener(c).dec(RecordHeader(w.record, w.seqNum), w.body).Opened?;
    }
  }

  /** What the filters say to the fragment. */
  lemma CarrierScreened(s: RxState, w: Sealed, rest: seq<byte>, m: Message, c: Cipher)
    requires Waits(s, m) && Carrier(w, s, m, c)
    ensures var (u, f) := (Passed(s, w.record, rest), FragmentIn(w.record));
      && (f.msgSeq == m.msgSeq ==> Screened(u, f) == Ok && CutOf(f, m))
      && (f.msgSeq != m.msgSeq ==> Screened(u, f) != Ok)
      && u.datagram == rest && u.queue == s.queue && SameSide(s, u) && Waits(u, m) && Waits(s, m)
  {
  }

  /** What a record of another message does. */
  lemma OtherPasses(s: RxState, v: Replay.View, ws: seq<Sealed>, m: Message, c: Cipher, at: int, size: nat, width: nat,
                    enabled: bool)
    returns (place: int)
    requires ws != [] && Waits(s, m) && Gapped(s.queue) && s.datagram == Datagram(ws)
    requires Carriers(ws, s, m, c) && NeverLengthens(Opener(c)) && FreshRun(v, width, enabled, Numbers(ws))
    requires FragmentIn(ws[0].record).msgSeq != m.msgSeq
    ensures var (w, rest) := (ws[0], Datagram(ws[1..]));
      var u := Passed(s, w.record, rest);
      && Waits(u, m) && SameSide(s, u) && u.queue == s.queue && u.datagram == rest
      && WorkOff(s, v, Opener(c), at, size, width, enabled)
         == WorkOff(u, v.Validated(w.seqNum), Opener(c), place, size, width, enabled)
  {
    hide *;
    var w, rest := ws[0], Datagram(ws[1..]);
    var start, f := size - |rest| - |w.body|, FragmentIn(w.record);
    CarrierFirst(ws, s, m, c);
    CarrierScreened(s, w, rest, m, c);
    CarrierArrives(s, v, ws, m, c, width, enabled);
    CarrierParts(w, s, m, c);
    WaitsParts(s, m);
    ArrivedParts(s, v, w, rest, c, width, enabled);
    RecordRead(s, v, w, rest, c, at, size, width, enabled);
    FragmentRefused(s, w.record, rest, f, start, size);
    WorkOffProcess(WithRecord(s, w.record, rest), v.Validated(w.seqNum), Opener(c), start, size, width, enabled);
    place := start + |Encode(f)|;
  }

  lemma CarrierFirst(ws: seq<Sealed>, s: RxState, m: Message, c: Cipher)
    requires ws != [] && Carriers(ws, s, m, c)
    ensures Carrier(ws[0], s, m, c)
  {
  }

  lemma WaitsParts(s: RxState, m: Message)
    requires Waits(s, m)
    ensures s.entity == Client && s.pending == [] && s.record == [] && s.msgSeq == m.msgSeq
  {
  }

  /** What a fragment of the message does: it completes the message, or is queued. */
  lemma OwnQueued(s: RxState, v: Replay.View, ws: seq<Sealed>, fs: seq<Fragment>, m: Message, c: Cipher, at: int,
                  size: nat, width: nat, enabled: bool)
    returns (q: seq<Fragment>, place: int)
    requires ws != [] && Waits(s, m) && StandsFor(s.queue, fs, m) && Gapped(s.queue) && s.datagram == Datagram(ws)
    requires Carriers(ws, s, m, c) && NeverLengthens(Opener(c)) && FreshRun(v, width, enabled, Numbers(ws))
    requires FragmentIn(ws[0].record).msgSeq == m.msgSeq
    requires size < 0x100_0000 && 2 * Held(fs, m) + 2 * |s.datagram| <= size
    ensures q != [] && Gapped(q)
    ensures var f := FragmentIn(ws[0].record);
      && StandsFor(q, fs + [f], m)
      && (Complete(q[0]) <==> Whole(fs + [f], m)) && (Complete(q[0]) ==> q[0] == m.Whole())
    ensures var u := WithQueue(Passed(s, ws[0].record, Datagram(ws[1..])), q);
      WorkOff(s, v, Opener(c), at, size, width, enabled)
      == WorkOff(u, v.Validated(ws[0].seqNum), Opener(c), place, size, width, enabled)
  {
    hide *;
    var w, rest, f := ws[0], Datagram(ws[1..]), FragmentIn(ws[0].record);
    CarrierFirst(ws, s, m, c);
    CarrierScreened(s, w, rest, m, c);
    CarrierArrives(s, v, ws, m, c, width, enabled);
    CarrierParts(w, s, m, c);
    WaitsParts(s, m);
    FeedQueue(s.queue, fs, f, size - |rest|, m);
    q := Reassemble(s.queue, f, size - |rest|).queue;
    place := size - |rest| - |w.body| + |Encode(f)|;
    StandsGapped(q, fs + [f], m);
    RoomApart(s.queue, fs, f, m, size - |rest| - |w.body|, size - |rest|, size);
    FragmentArrives(s, v, w, rest, c, f, at, size, width, enabled);
    QueueIs(s.queue, f, size - |rest|);
  }

  lemma QueueIs(q: seq<Fragment>, f: Fragment, capacity: int)
    requires Gapped(q) && Reassemble(q, f, capacity).Queued?
    ensures Queue(q, f, capacity) == Reassemble(q, f, capacity).queue
  {
  }

  /** How a datagram is worked off: the message is handed up exactly when the fragments cover it, and
      otherwise all of them are queued. */
  ghost predicate WorkedOff(s: RxState, v: Replay.View, ws: seq<Sealed>, fs: seq<Fragment>, m: Message,
                            r: ReceiveLoop.Outcome)
  {
    SameSide(s, r.next) &&
    if Whole(fs + Carried(ws, m), m) then
      && r.end == HandedUp && r.next.pending == Encode(m.Whole()) && r.next.msgSeq == m.msgSeq + 1
      && r.next.contentType == TYPE_HANDSHAKE
    else
      && r.end == Exhausted && Waits(r.next, m) && r.next.datagram == []
      && StandsFor(r.next.queue, fs + Carried(ws, m), m) && r.window == After(v, Numbers(ws))
  }

  lemma {:induction false} DatagramWorked(s: RxState, v: Replay.View, ws: seq<Sealed>, fs: seq<Fragment>, m: Message,
                                          c: Cipher,
                                         at: int, size: nat, width: nat, enabled: bool)
    requires Waits(s, m) && StandsFor(s.queue, fs, m) && Gapped(s.queue) && !Whole(fs, m) && s.datagram == Datagram(ws)
    requires Carriers(ws, s, m, c) && NeverLengthens(Opener(c)) && FreshRun(v, width, enabled, Numbers(ws))
    requires size < 0x100_0000 && 2 * Held(fs + Carried(ws, m), m) + 2 * |s.datagram| <= size
    ensures WorkedOff(s, v, ws, fs, m, WorkOff(s, v, Opener(c), at, size, width, enabled))
    decreases |ws|
  {
    hide *;
    if ws == [] {
      NothingLeft(s, v, fs, m);
      WorkOffEnds(s, v, Opener(c), at, size, width, enabled);
    } else {
      var w, rest, f := ws[0], Datagram(ws[1..]), FragmentIn(ws[0].record);
      WaitsParts(s, m);
      CarrierArrives(s, v, ws, m, c, width, enabled);
      CarriedFirst(ws, fs, m);
      var after := v.Validated(w.seqNum);
      if f.msgSeq != m.msgSeq {
        var place := OtherPasses(s, v, ws, m, c, at, size, width, enabled);
        var u := Passed(s, w.record, rest);
        CarriersStay(ws[1..], s, u, m, c);
        DatagramWorked(u, after, ws[1..], fs, m, c, place, size, width, enabled);
        WorkedOffOn(s, v, ws, fs, fs, m, u, WorkOff(u, after, Opener(c), place, size, width, enabled));
      } else {
        HeldGrows(fs, Carried(ws, m), m);
        var q, place := OwnQueued(s, v, ws, fs, m, c, at, size, width, enabled);
        var u := WithQueue(Passed(s, w.record, rest), q);
        CarrierFirst(ws, s, m, c);
        CarrierParts(w, s, m, c);
        QueuedState(s, w.record, rest, q, m);
        if Complete(q[0]) {
          WorkOffEnds(u, after, Opener(c), place, size, width, enabled);
          WholeGrows(fs + [f], Carried(ws[1..], m), m);
          HandedUpNow(s, v, ws, fs, m, Outcome(u, after, place, HandedUp));
        } else {
          CarriersStay(ws[1..], s, u, m, c);
          DatagramWorked(u, after, ws[1..], fs + [f], m, c, place, size, width, enabled);
          WorkedOffOn(s, v, ws, fs, fs + [f], m, u, WorkOff(u, after, Opener(c), place, size, width, enabled));
        }
      }
    }
  }

  lemma NothingLeft(s: RxState, v: Replay.View, fs: seq<Fragment>, m: Message)
    requires Waits(s, m) && StandsFor(s.queue, fs, m) && !Whole(fs, m) && s.datagram == Datagram([])
    ensures s.pending == [] && s.record == [] && s.datagram == []
    ensures forall at :: WorkedOff(s, v, [], fs, m, Outcome(s, v, at, Exhausted))
  {
    assert fs + [] == fs && Numbers([]) == [];
    hide StandsFor, Whole;
  }

  lemma CarriedFirst(ws: seq<Sealed>, fs: seq<Fragment>, m: Message)
    requires ws != []
    ensures var f := FragmentIn(ws[0].record);
      fs + Carried(ws, m) == (if f.msgSeq == m.msgSeq then fs + [f] else fs) + Carried(ws[1..], m)
  {
    hide FragmentIn;
  }

  lemma WorkedOffOn(s: RxState, v: Replay.View, ws: seq<Sealed>, fs: seq<Fragment>, gs: seq<Fragment>, m: Message,
                    u: RxState, r: ReceiveLoop.Outcome)
    requires ws != [] && SameSide(s, u) && fs + Carried(ws, m) == gs + Carried(ws[1..], m)
    requires After(v, Numbers(ws)) == After(v.Validated(ws[0].seqNum), Numbers(ws[1..]))
    requires WorkedOff(u, v.Validated(ws[0].seqNum), ws[1..], gs, m, r)
    ensures WorkedOff(s, v, ws, fs, m, r)
  {
    hide StandsFor, Whole, Carried, After, Numbers;
  }

  lemma HandedUpNow(s: RxState, v: Replay.View, ws: seq<Sealed>, fs: seq<Fragment>, m: Message, r: ReceiveLoop.Outcome)
    requires SameSide(s, r.next) && Whole(fs + Carried(ws, m), m)
    requires r.end == HandedUp && r.next.pending == Encode(m.Whole()) && r.next.msgSeq == m.msgSeq + 1
    requires r.next.contentType == TYPE_HANDSHAKE
    ensures WorkedOff(s, v, ws, fs, m, r)
  {
    hide StandsFor, Whole, Carried;
  }

  /** The state with the fragment in the queue. */
  lemma QueuedState(s: RxState, r: Record, rest: seq<byte>, q: seq<Fragment>, m: Message)
    requires Waits(s, m) && q != [] && (Complete(q[0]) ==> q[0] == m.Whole()) && r.contentType == TYPE_HANDSHAKE
    ensures var u := WithQueue(Passed(s, r, rest), q);
      && SameSide(s, u) && u.datagram == rest && u.contentType == TYPE_HANDSHAKE
      && if Complete(q[0]) then u.pending == Encode(m.Whole()) && u.pending != [] && u.msgSeq == m.msgSeq + 1
         else Waits(u, m) && u.queue == q
  {
    hide Complete;
  }

  // ----- A transmission -----

  /** The datagrams arrive one after the other. */
  function InTurn(ds: seq<seq<Sealed>>): seq<Happening> {
    seq(|ds|, k requires 0 <= k < |ds| => Arrives(Datagram(ds[k])))
  }

  /** Where the datagrams have brought the receiver: the message is handed up, once and as a whole, if
      their fragments cover it, and otherwise all of them are queued. */
  ghost predicate Brought(p: Endpoint, ds: seq<seq<Sealed>>, m: Message, end: Endpoint, handed: seq<seq<byte>>) {
    var fs := Carried(Flatten(ds), m);
    && !end.over && SameSide(p.s, end.s)
    && if Whole(fs, m) then
         handed == [Encode(m.Whole())] && end.s.pending == Encode(m.Whole()) && end.s.msgSeq == m.msgSeq + 1
       else
         && handed == [] && Waits(end.s, m) && end.s.datagram == [] && StandsFor(end.s.queue, fs, m)
         && end.window == After(p.window, Numbers(Flatten(ds)))
  }

  /** Every datagram has room beside what the queue can hold of all of them. */
  ghost predicate RoomForAll(ds: seq<seq<Sealed>>, m: Message, size: nat) {
    forall i :: 0 <= i < |ds| ==> 2 * Held(Carried(Flatten(ds), m), m) + 2 * |Datagram(ds[i])| <= size
  }

  /** Datagrams with fragments of the expected message, fresh to the window and with room for each, in
      any order, with any repeats and overlaps of fragments, and mixed with fragments of other
      messages: through framing, epoch check, replay window, decryption and reassembly the message
      is handed up exactly when the fragments cover it. */
  lemma {:induction false} HandedUpIff(p: Endpoint, ds: seq<seq<Sealed>>, x: Setup, m: Message, c: Cipher)
    requires Usable(x) && !p.over && Waits(p.s, m) && p.s.queue == [] && p.s.datagram == []
    requires x.engines(p.s.epoch) == Opener(c) && Carriers(Flatten(ds), p.s, m, c)
    requires FreshRun(p.window, x.width, x.enabled, Numbers(Flatten(ds))) && RoomForAll(ds, m, x.size)
    ensures Gapped(p.s.queue) && forall epoch :: NeverLengthens(x.engines(epoch))
    ensures Brought(p, ds, m, Exchange(p, InTurn(ds), x).0, Exchange(p, InTurn(ds), x).1)
    decreases |ds|
  {
    hide *;
    ExchangeIs(p, InTurn(ds), x);
    TurnsLast(ds);
    if ds == [] {
      NothingBrought(p, m);
    } else {
      var init, last := ds[..|ds| - 1], ds[|ds| - 1];
      Shorter(p, init, last, ds, x, m, c);
      HandedUpIff(p, init, x, m, c);
      var (mid, out) := Exchange(p, InTurn(init), x);
      OneMore(p, init, last, ds, x, m, c, mid, out);
    }
  }

  lemma TurnsLast(ds: seq<seq<Sealed>>)
    ensures |InTurn(ds)| == |ds|
    ensures ds != [] ==>
      InTurn(ds)[..|ds| - 1] == InTurn(ds[..|ds| - 1]) && InTurn(ds)[|ds| - 1] == Arrives(Datagram(ds[|ds| - 1]))
  {
    hide Datagram;
  }

  lemma NothingBrought(p: Endpoint, m: Message)
    requires !p.over && Waits(p.s, m) && p.s.queue == [] && p.s.datagram == []
    ensures Brought(p, [], m, p, [])
  {
  }

  /** What holds of all the datagrams holds of those before the last. */
  lemma Shorter(p: Endpoint, init: seq<seq<Sealed>>, last: seq<Sealed>, ds: seq<seq<Sealed>>, x: Setup, m: Message,
                c: Cipher)
    requires ds == init + [last] && Carriers(Flatten(ds), p.s, m, c)
    requires FreshRun(p.window, x.width, x.enabled, Numbers(Flatten(ds))) && RoomForAll(ds, m, x.size)
    ensures Carriers(Flatten(init), p.s, m, c) && Carriers(last, p.s, m, c) && RoomForAll(init, m, x.size)
    ensures FreshRun(p.window, x.width, x.enabled, Numbers(Flatten(init)))
    ensures FreshRun(After(p.window, Numbers(Flatten(init))), x.width, x.enabled, Numbers(last))
    ensures After(p.window, Numbers(Flatten(ds))) == After(After(p.window, Numbers(Flatten(init))), Numbers(last))
    ensures Carried(Flatten(ds), m) == Carried(Flatten(init), m) + Carried(last, m)
    ensures 2 * Held(Carried(Flatten(ds), m), m) + 2 * |Datagram(last)| <= x.size
  {
    hide Carrier, Carried, Numbers, FreshRun, After, Held, Datagram;
    assert ds[..|ds| - 1] == init && Flatten(ds) == Flatten(init) + last;
    CarriedConcat(Flatten(init), last, m);
    FreshConcat(p.window, x.width, x.enabled, Numbers(Flatten(init)), Numbers(last));
    HeldGrows(Carried(Flatten(init), m), Carried(last, m), m);
    CarriersSplit(Flatten(init), last, p.s, m, c);
    assert ds[|ds| - 1] == last;
    forall i | 0 <= i < |init|
      ensures 2 * Held(Carried(Flatten(init), m), m) + 2 * |Datagram(init[i])| <= x.size
    {
      assert ds[i] == init[i];
    }
  }

  lemma CarriersSplit(a: seq<Sealed>, b: seq<Sealed>, s: RxState, m: Message, c: Cipher)
    requires Carriers(a + b, s, m, c)
    ensures Carriers(a, s, m, c) && Carriers(b, s, m, c)
  {
    hide Carrier;
    forall k | 0 <= k < |a| ensures Carrier(a[k], s, m, c) { assert (a + b)[k] == a[k]; }
    forall k | 0 <= k < |b| ensures Carrier(b[k], s, m, c) { assert (a + b)[|a| + k] == b[k]; }
  }

  /** One more datagram. */
  lemma OneMore(p: Endpoint, init: seq<seq<Sealed>>, last: seq<Sealed>, ds: seq<seq<Sealed>>, x: Setup, m: Message,
                c: Cipher, mid: Endpoint, out: seq<seq<byte>>)
    requires Usable(x) && x.engines(p.s.epoch) == Opener(c) && Gapped(mid.s.queue)
    requires (forall epoch :: NeverLengthens(x.engines(epoch))) && Brought(p, init, m, mid, out)
    requires Carriers(last, p.s, m, c)
    requires FreshRun(After(p.window, Numbers(Flatten(init))), x.width, x.enabled, Numbers(last))
    requires After(p.window, Numbers(Flatten(ds))) == After(After(p.window, Numbers(Flatten(init))), Numbers(last))
    requires Carried(Flatten(ds), m) == Carried(Flatten(init), m) + Carried(last, m)
    requires 2 * Held(Carried(Flatten(ds), m), m) + 2 * |Datagram(last)| <= x.size
    ensures var (next, more) := Turn(mid, Arrives(Datagram(last)), x);
      Brought(p, ds, m, next, out + more)
  {
    hide WorkOff, Carried, Numbers, FreshRun, After, Held, Datagram, Flatten, Whole, StandsFor, Carriers, Gapped,
         NeverLengthens, Encode;
    var fs := Carried(Flatten(init), m);
    if Whole(fs, m) {
      WholeGrows(fs, Carried(last, m), m);
      assert out + [] == out;
    } else {
      var s := mid.s.(datagram := Datagram(last));
      CarriersStay(last, p.s, s, m, c);
      DatagramWorked(s, mid.window, last, fs, m, c, mid.at, x.size, x.width, x.enabled);
    }
  }

  /** All fragments of the message under some size, among what arrives, cover it. */
  lemma AllCutsCover(ws: seq<Sealed>, m: Message, size: nat)
    requires size > 0 && forall f :: f in Cuts(m, size) ==> exists k :: 0 <= k < |ws| && FragmentIn(ws[k].record) == f
    ensures Whole(Carried(ws, m), m)
  {
    hide FragmentIn, Carried;
    var c, fs := Cuts(m, size), Carried(ws, m);
    CutsPartition(m, size, 0);
    forall f | f in c ensures f in fs {
      assert CutOf(f, m);
      var k :| 0 <= k < |ws| && FragmentIn(ws[k].record) == f;
      CarriedHolds(ws, m, k);
    }
    assert c[0] in fs;
    forall x | 0 <= x < |m.body| ensures Covers(fs, x) {
      CutsCover(m, size, 0, x);
      var k :| 0 <= k < |c| && c[k].offset <= x < c[k].End();
      assert c[k] in fs;
    }
  }

  /** One complete transmission of the expected message in its datagrams, lost in none, in any order and
      mixed with others, hands the message up. */
  lemma TransmissionHandsUp(p: Endpoint, ds: seq<seq<Sealed>>, x: Setup, m: Message, c: Cipher, size: nat)
    requires Usable(x) && !p.over && Waits(p.s, m) && p.s.queue == [] && p.s.datagram == []
    requires x.engines(p.s.epoch) == Opener(c) && Carriers(Flatten(ds), p.s, m, c)
    requires FreshRun(p.window, x.width, x.enabled, Numbers(Flatten(ds))) && RoomForAll(ds, m, x.size)
    requires size > 0 && forall f :: f in Cuts(m, size) ==>
      exists k :: 0 <= k < |Flatten(ds)| && FragmentIn(Flatten(ds)[k].record) == f
    ensures Gapped(p.s.queue) && forall epoch :: NeverLengthens(x.engines(epoch))
    ensures var (end, handed) := Exchange(p, InTurn(ds), x);
      handed == [Encode(m.Whole())] && end.s.msgSeq == m.msgSeq + 1 && !end.over
  {
    HandedUpIff(p, ds, x, m, c);
    AllCutsCover(Flatten(ds), m, size);
    hide Exchange, Carried, Whole, StandsFor, FreshRun, After, Carriers, RoomForAll, NeverLengthens;
  }
}
