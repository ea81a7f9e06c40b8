/** From the sending to the receiving side: what the flight machinery puts on the wire meets what
    the delivery theorems ask of the peer. */
module EndToEnd {
  import opened Bytes
  import opened Fragments
  import opened Reassembly
  import opened ReceiveSpec
  import opened FlightSpec
  import ReceiveRuns
  import Session
  import Transmit
  import Completion
  import Arrivals
  import Progress

  /** Every handshake record of the flight holds one of the messages. */
  ghost predicate Carries(flight: seq<Record>, msgs: seq<Message>, first: nat) {
    forall k :: 0 <= k < |flight| && flight[k].contentType == TYPE_HANDSHAKE ==>
      && HoldsMessage(flight[k])
      && var m := MessageOf(flight[k]); first <= m.msgSeq < first + |msgs| && msgs[m.msgSeq - first] == m
  }

  /** A record whose payload is one encoded fragment of a message is a record of the peer. */
  lemma FragmentFromPeer(f: Fragment, m: Message, msgs: seq<Message>, first: nat)
    requires f.WireSized() && CutOf(f, m) && first <= m.msgSeq < first + |msgs| && msgs[m.msgSeq - first] == m
    ensures ReceiveRuns.PeerRecord(Encode(f), msgs, first)
  {
    var r := Encode(f);
    assert r[0..0 + |Encode(f)|] == Encode(f);
    DecodeEncode(r, 0, f);
    assert r[HEADER_LEN + Load24(r, 9)..] == [];
  }

  lemma CutsFromPeer(m: Message, size: nat, msgs: seq<Message>, first: nat, f: Fragment)
    requires size > 0 && m.WireSized() && f in Cuts(m, size)
    requires first <= m.msgSeq < first + |msgs| && msgs[m.msgSeq - first] == m
    ensures ReceiveRuns.PeerRecord(Encode(f), msgs, first)
  {
    CutsPartition(m, size, 0);
    FragmentFromPeer(f, m, msgs, first);
  }

  /** Whatever fragment sizes are in force, every handshake record that a record of the flight
      expands to is one the delivery theorems accept. */
  lemma FlightFromPeer(flight: seq<Record>, r: Record, sizes: Sizes, msgs: seq<Message>, first: nat, w: Record)
    requires r in flight && Sized(r, sizes) && Carries(flight, msgs, first) && ReceiveRuns.PeerMessages(msgs, first)
    requires w in Expand(r, sizes) && w.contentType == TYPE_HANDSHAKE
    ensures ReceiveRuns.PeerRecord(w.payload, msgs, first)
  {
    hide Cuts, ReceiveRuns.PeerRecord, MessageOf, Encode;
    assert r.contentType == TYPE_HANDSHAKE;
    var m := MessageOf(r);
    var fs := Cuts(m, sizes.For(r.epoch));
    var k :| 0 <= k < |fs| && w == FragmentRecords(r.version, r.epoch, fs)[k];
    CutsFromPeer(m, sizes.For(r.epoch), msgs, first, fs[k]);
  }

  // ----- What is on the wire -----

  /** A sealed record of some transmission of one of the flights, under whatever sizes were in
      force then. */
  ghost predicate Genuine(w: Sealed, flights: seq<seq<Record>>, keys: nat -> Cipher) {
    SealedBy(w, keys(w.record.epoch)) && exists i: nat, r, sizes :: OfFlight(w.record, flights, i, r, sizes)
  }

  predicate OfFlight(w: Record, flights: seq<seq<Record>>, i: nat, r: Record, sizes: Sizes) {
    i < |flights| && r in flights[i] && Sized(r, sizes) && w in Expand(r, sizes)
  }

  ghost predicate AllGenuine(ws: seq<Sealed>, flights: seq<seq<Record>>, keys: nat -> Cipher) {
    forall k :: 0 <= k < |ws| ==> Genuine(ws[k], flights, keys)
  }

  /** The octets of some such records, one after the other. */
  ghost predicate GenuineDatagram(d: seq<byte>, flights: seq<seq<Record>>, keys: nat -> Cipher) {
    exists ws :: d == Datagram(ws) && AllGenuine(ws, flights, keys)
  }

  /** What a flight expands to comes from one of its records. */
  lemma {:induction false} ExpandedFrom(flight: seq<Record>, sizes: Sizes, w: Record) returns (k: nat)
    requires forall j :: 0 <= j < |flight| ==> Sized(flight[j], sizes)
    requires w in ExpandFlight(flight, sizes)
    ensures k < |flight| && w in Expand(flight[k], sizes)
  {
    hide Sized, Expand;
    if w in ExpandFlight(flight[..|flight| - 1], sizes) {
      k := ExpandedFrom(flight[..|flight| - 1], sizes, w);
    } else {
      k := |flight| - 1;
    }
  }

  /** A transmission, complete or broken off, puts out genuine records. */
  lemma TransmissionGenuine(tx: Transmit.Transmitter, ws: seq<Sealed>, flights: seq<seq<Record>>, i: nat,
                            keys: nat -> Cipher)
    requires tx.Valid() && tx.Sendable() && tx.Begun(ws) && i < |flights| && flights[i] == tx.flight
    requires keys(tx.encryptionEngine.epoch) == tx.encryptionEngine.cipher
    requires keys(tx.prevEncryptionEngine.epoch) == tx.prevEncryptionEngine.cipher
    ensures AllGenuine(ws, flights, keys)
  {
    hide SealedBy, Sized, Expand, ExpandFlight, EncodeFlight, FlightWellFormed, Lawful;
    var sizes := tx.FragSizes();
    var j: nat :| tx.BegunAt(ws, j);
    forall k | 0 <= k < |ws| ensures Genuine(ws[k], flights, keys) {
      var w := ws[k].record;
      assert Plain(ws)[k] == w;
      var n := ExpandedFrom(tx.flight[..j], sizes, w);
      var r := tx.flight[..j][n];
      assert r == tx.flight[n];
      ExpandEpoch(r, sizes, w);
      assert OfFlight(w, flights, i, r, sizes);
    }
  }

  lemma ExpandEpoch(r: Record, sizes: Sizes, w: Record)
    requires Sized(r, sizes) && w in Expand(r, sizes)
    ensures w.epoch == r.epoch
  {
  }

  /** When all transmissions so far were such, every datagram sent is genuine. */
  lemma SentGenuine(tx: Transmit.Transmitter, i: nat, flights: seq<seq<Record>>, keys: nat -> Cipher)
    requires tx.Valid() && i < |tx.sent| && AllGenuine(Flatten(tx.datagrams), flights, keys)
    ensures GenuineDatagram(tx.sent[i], flights, keys)
  {
    hide Genuine, Flatten, Datagram;
    var ws, all := tx.datagrams[i], Flatten(tx.datagrams);
    FlattenHolds(tx.datagrams, i);
    forall k | 0 <= k < |ws| ensures Genuine(ws[k], flights, keys) {
      assert ws[k] in all;
    }
  }

  lemma {:induction false} FlattenHolds(ds: seq<seq<Sealed>>, i: nat)
    requires i < |ds|
    ensures forall w :: w in ds[i] ==> w in Flatten(ds)
  {
    if i < |ds| - 1 { FlattenHolds(ds[..|ds| - 1], i); }
  }

  /** Records added to genuine ones by a further transmission. */
  lemma MoreGenuine(before: seq<Sealed>, ws: seq<Sealed>, after: seq<Sealed>, flights: seq<seq<Record>>,
                    keys: nat -> Cipher)
    requires AllGenuine(before, flights, keys) && AllGenuine(ws, flights, keys) && after <= before + ws
    ensures AllGenuine(after, flights, keys)
  {
    hide Genuine;
  }

  /** A further transmission, complete or broken off, leaves nothing but genuine datagrams behind it. */
  lemma TransmissionKeepsGenuine(tx: Transmit.Transmitter, before: seq<Sealed>, ws: seq<Sealed>,
                                 flights: seq<seq<Record>>, i: nat, keys: nat -> Cipher)
    requires tx.Valid() && tx.Sendable() && tx.Begun(ws) && i < |flights| && flights[i] == tx.flight
    requires keys(tx.encryptionEngine.epoch) == tx.encryptionEngine.cipher
    requires keys(tx.prevEncryptionEngine.epoch) == tx.prevEncryptionEngine.cipher
    requires AllGenuine(before, flights, keys) && Flatten(tx.datagrams) <= before + ws
    ensures AllGenuine(Flatten(tx.datagrams), flights, keys)
    ensures forall k :: 0 <= k < |tx.sent| ==> GenuineDatagram(tx.sent[k], flights, keys)
  {
    TransmissionGenuine(tx, ws, flights, i, keys);
    MoreGenuine(before, ws, Flatten(tx.datagrams), flights, keys);
    forall k | 0 <= k < |tx.sent| ensures GenuineDatagram(tx.sent[k], flights, keys) {
      SentGenuine(tx, k, flights, keys);
    }
  }

  // ----- What the other side makes of it -----

  ghost predicate OtherEnd(engines: nat -> Decryptor, keys: nat -> Cipher) {
    forall epoch :: engines(epoch) == Opener(keys(epoch))
  }

  /** A genuine datagram, read record by record, holds nothing but the peer's messages. */
  lemma {:induction false} GenuineReads(ws: seq<Sealed>, flights: seq<seq<Record>>, keys: nat -> Cipher,
                                       engines: nat -> Decryptor, msgs: seq<Message>, first: nat)
    requires AllGenuine(ws, flights, keys) && OtherEnd(engines, keys) && ReceiveRuns.PeerMessages(msgs, first)
    requires forall i :: 0 <= i < |flights| ==> Carries(flights[i], msgs, first)
    ensures Session.PeerDatagram(Datagram(ws), engines, msgs, first)
  {
    hide ReceiveRuns.PeerRecord, Carries, ReceiveRuns.PeerMessages, RecordHeader, Sealed.Octets, OfFlight;
    if ws != [] {
      var w, rest := ws[0], ws[1..];
      assert Genuine(w, flights, keys);
      forall k | 0 <= k < |rest| ensures Genuine(rest[k], flights, keys) {
        assert rest[k] == ws[k + 1];
      }
      GenuineReads(rest, flights, keys, engines, msgs, first);
      DatagramFront(ws);
      FrontRecord(Datagram(ws), w, Datagram(rest));
      if w.record.contentType == TYPE_HANDSHAKE {
        GenuinePayload(w, flights, keys, msgs, first);
      }
      hide Load16, Datagram;
    }
  }

  lemma GenuinePayload(w: Sealed, flights: seq<seq<Record>>, keys: nat -> Cipher, msgs: seq<Message>, first: nat)
    requires Genuine(w, flights, keys) && w.record.contentType == TYPE_HANDSHAKE
    requires ReceiveRuns.PeerMessages(msgs, first)
    requires forall i :: 0 <= i < |flights| ==> Carries(flights[i], msgs, first)
    ensures ReceiveRuns.PeerRecord(w.record.payload, msgs, first)
  {
    var i: nat, r, sizes :| OfFlight(w.record, flights, i, r, sizes);
    FlightFromPeer(flights[i], r, sizes, msgs, first, w.record);
  }

  /** The round trip through a hostile network: datagrams of any transmissions of the flights, under
      any PMTUs, lost, repeated and reordered at will, go through framing, epoch check, replay
      window, decryption and reassembly of a client, which hands up the messages of the flights
      in order and each once, as far as rxMsgSeq has come. */
  lemma FlightsDelivered(p: Session.Endpoint, hs: seq<Session.Happening>, x: Session.Setup, flights: seq<seq<Record>>,
                         keys: nat -> Cipher, msgs: seq<Message>, first: nat)
    requires Session.Usable(x) && OtherEnd(x.engines, keys) && ReceiveRuns.PeerMessages(msgs, first)
    requires forall i :: 0 <= i < |flights| ==> Carries(flights[i], msgs, first)
    requires p.s.entity == Client && p.s.queue == [] && p.s.record == [] && p.s.datagram == [] && p.s.msgSeq == first
    requires forall k :: 0 <= k < |hs| && hs[k].Arrives? ==> GenuineDatagram(hs[k].datagram, flights, keys)
    ensures var (end, handed) := Session.Exchange(p, hs, x);
      && first <= end.s.msgSeq <= first + |msgs|
      && handed == ReceiveRuns.Wholes(msgs, end.s.msgSeq - first)
  {
    forall k | 0 <= k < |hs| && hs[k].Arrives? ensures Session.PeerDatagram(hs[k].datagram, x.engines, msgs, first) {
      var ws :| hs[k].datagram == Datagram(ws) && AllGenuine(ws, flights, keys);
      GenuineReads(ws, flights, keys, x.engines, msgs, first);
    }
    Session.ExchangeDelivers(p, hs, x, msgs, first);
  }

  /** One complete transmission of the expected message among what arrives, in any order and
      mixed with any other cuts of it, hands the message up. */
  lemma OneTransmissionDelivers(s: RxState, fs: seq<Fragment>, size: nat, m: Message, maxFragSize: nat)
    requires Completion.Expects(s, m) && size < 0x100_0000 && Completion.RoomFor(fs, m, size - |s.datagram|)
    requires forall f :: f in fs ==> f.WireSized() && CutOf(f, m)
    requires maxFragSize > 0 && forall f :: f in Cuts(m, maxFragSize) ==> f in fs
    ensures Completion.Feed(s, fs, size) == Completion.Delivered(s, m)
  {
    var c := Cuts(m, maxFragSize);
    assert c[0] in fs;
    forall x | 0 <= x < |m.body| ensures Covers(fs, x) {
      CutsCover(m, maxFragSize, 0, x);
      var k :| 0 <= k < |c| && c[k].offset <= x < c[k].End();
      assert c[k] in fs;
    }
    Completion.HandedUpIffCovered(s, fs, size, m);
  }

  // ----- Progress -----

  /** Every record that a record of the flight expands to is among those of the flight. */
  lemma {:induction false} ExpandedHolds(flight: seq<Record>, sizes: Sizes, k: nat)
    requires (forall j :: 0 <= j < |flight| ==> Sized(flight[j], sizes)) && k < |flight|
    ensures forall w :: w in Expand(flight[k], sizes) ==> w in ExpandFlight(flight, sizes)
  {
    hide Sized, Expand;
    if k < |flight| - 1 { ExpandedHolds(flight[..|flight| - 1], sizes, k); }
  }

  /** A complete transmission of the flight has every fragment of a message of it on the wire. */
  lemma CutsOnWire(flight: seq<Record>, sizes: Sizes, k: nat, ws: seq<Sealed>, f: Fragment)
    requires (forall j :: 0 <= j < |flight| ==> Sized(flight[j], sizes)) && k < |flight|
    requires flight[k].contentType == TYPE_HANDSHAKE && HoldsMessage(flight[k]) && MessageOf(flight[k]).WireSized()
    requires Plain(ws) == ExpandFlight(flight, sizes)
    requires sizes.For(flight[k].epoch) > 0 && f in Cuts(MessageOf(flight[k]), sizes.For(flight[k].epoch))
    ensures exists j :: 0 <= j < |ws| && Progress.FragmentIn(ws[j].record) == f
  {
    var r, m := flight[k], MessageOf(flight[k]);
    var fs := Cuts(m, sizes.For(r.epoch));
    CutsPartition(m, sizes.For(r.epoch), 0);
    hide Cuts, HoldsMessage, MessageOf, Sized;
    assert CutOf(f, m);
    Arrivals.RecordIs(f);
    var i :| 0 <= i < |fs| && fs[i] == f;
    var w := FragmentRecords(r.version, r.epoch, fs)[i];
    assert w in Expand(r, sizes);
    ExpandedHolds(flight, sizes, k);
    var j :| 0 <= j < |ws| && Plain(ws)[j] == w;
    assert Progress.FragmentIn(ws[j].record) == f;
  }

  /** One complete transmission of the flight in whatever datagrams, of which none is lost, hands up the
      message of the flight that the client waits for. */
  lemma TransmissionHandsUp(p: Session.Endpoint, ds: seq<seq<Sealed>>, x: Session.Setup, flight: seq<Record>,
                            sizes: Sizes, k: nat, m: Message, c: Cipher)
    requires Session.Usable(x) && !p.over && Progress.Waits(p.s, m) && p.s.queue == [] && p.s.datagram == []
    requires x.engines(p.s.epoch) == Opener(c) && Progress.Carriers(Flatten(ds), p.s, m, c)
    requires Progress.FreshRun(p.window, x.width, x.enabled, Progress.Numbers(Flatten(ds)))
    requires Progress.RoomForAll(ds, m, x.size) && m.WireSized()
    requires (forall j :: 0 <= j < |flight| ==> Sized(flight[j], sizes))
    requires Plain(Flatten(ds)) == ExpandFlight(flight, sizes)
    requires k < |flight| && flight[k].contentType == TYPE_HANDSHAKE && HoldsMessage(flight[k])
    requires MessageOf(flight[k]) == m
    ensures Gapped(p.s.queue) && forall epoch :: NeverLengthens(x.engines(epoch))
    ensures var (end, handed) := Session.Exchange(p, Progress.InTurn(ds), x);
      handed == [Encode(m.Whole())] && end.s.msgSeq == m.msgSeq + 1 && !end.over
  {
    var size := sizes.For(flight[k].epoch);
    assert Sized(flight[k], sizes);
    forall f | f in Cuts(m, size)
      ensures exists j :: 0 <= j < |Flatten(ds)| && Progress.FragmentIn(Flatten(ds)[j].record) == f
    {
      CutsOnWire(flight, sizes, k, Flatten(ds), f);
    }
    hide *;
    Progress.TransmissionHandsUp(p, ds, x, m, c, size);
  }
}
