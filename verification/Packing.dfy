/** How the records of a flight are packed into datagrams behind the flight in the transmit buffer,
    and when their protected forms stay within datagram and buffer. */
module Packing {
  import opened Fragments
  import opened Reassembly
  import opened ReceiveSpec
  import opened Protection
  import opened FlightSpec

  // ----- One record -----

  /** The length of a record with so long a payload, as the code estimates it. */
  function Estimate(suite: Suite, n: nat): nat
    requires suite.WellFormed()
  {
    RECORD_HEADER_LEN + n + Overhead(suite, RECORD_HEADER_LEN + n)
  }

  /** Its length once it is protected. */
  function SealedLen(suite: Suite, n: nat): nat
    requires suite.WellFormed()
  {
    RECORD_HEADER_LEN + n + Growth(suite, n)
  }

  /** The length of the datagram that the record joins: one without room for it goes out first. */
  function Joined(len: nat, estimate: nat, limit: int): nat {
    if len > 0 && len + estimate > limit then 0 else len
  }

  /** The protected record fits the 16-bit length field and, behind len octets, the room. */
  predicate SealClear(len: nat, suite: Suite, n: nat, room: int)
    requires suite.WellFormed()
  {
    n + Growth(suite, n) < 0x1_0000 && len + SealedLen(suite, n) <= room
  }

  /** The estimate lets a record pass that does not fit once it is protected exactly when the room
      lies between the two values of the overhead. */
  lemma EstimateMisleadsIff(suite: Suite, n: nat, len: nat, room: int)
    requires suite.WellFormed()
    ensures len + Estimate(suite, n) <= room < len + SealedLen(suite, n) <==>
      len + RECORD_HEADER_LEN + n + Overhead(suite, RECORD_HEADER_LEN + n) <= room
      < len + RECORD_HEADER_LEN + n + Overhead(suite, n)
  {
    OverheadIsGrowth(suite, n);
  }

  /** A fragment of n octets, at most as many as the code admits for a limit, alone in a datagram: it
      exceeds the limit exactly under a CBC suite for which n is closer to the admitted size than the
      octets behind the last whole block of fragment and fixed part are to those of the fixed part. */
  lemma FragmentExceedsIff(suite: Suite, limit: int, n: nat)
    requires suite.WellFormed()
    requires n <= limit - (RECORD_HEADER_LEN + HEADER_LEN + Overhead(suite, 0))
    ensures var max := limit - (RECORD_HEADER_LEN + HEADER_LEN + Overhead(suite, 0));
      SealedLen(suite, HEADER_LEN + n) > limit <==>
      suite.mode == Cbc
      && max - n < suite.CbcFixed() % suite.blockSize - (HEADER_LEN + n + suite.CbcFixed()) % suite.blockSize
  {
    OverheadIsGrowth(suite, HEADER_LEN + n);
  }

  /** For a full fragment: header and data leave less behind the last block than the fixed part. */
  lemma FullFragmentExceedsIff(suite: Suite, limit: int)
    requires suite.WellFormed()
    requires limit - (RECORD_HEADER_LEN + HEADER_LEN + Overhead(suite, 0)) > 0
    ensures var max := limit - (RECORD_HEADER_LEN + HEADER_LEN + Overhead(suite, 0));
      SealedLen(suite, HEADER_LEN + max) > limit <==>
      suite.mode == Cbc && (HEADER_LEN + max + suite.CbcFixed()) % suite.blockSize < suite.CbcFixed() % suite.blockSize
  {
    FragmentExceedsIff(suite, limit, limit - (RECORD_HEADER_LEN + HEADER_LEN + Overhead(suite, 0)));
  }

  // ----- The fragments of a message -----

  /** The fragments, added one after the other to a datagram of len octets, all fit. */
  predicate CutsClear(len: nat, suite: Suite, fs: seq<Fragment>, limit: int, room: int)
    requires suite.WellFormed()
    decreases |fs|
  {
    fs == [] ||
    (var n := |Encode(fs[0])|;
     var j := Joined(len, Estimate(suite, n), limit);
     SealClear(j, suite, n, room) && CutsClear(j + SealedLen(suite, n), suite, fs[1..], limit, room))
  }

  /** The length of the datagram under construction then. */
  function CutsPacked(len: nat, suite: Suite, fs: seq<Fragment>, limit: int): nat
    requires suite.WellFormed()
    decreases |fs|
  {
    if fs == [] then len
    else
      var n := |Encode(fs[0])|;
      CutsPacked(Joined(len, Estimate(suite, n), limit) + SealedLen(suite, n), suite, fs[1..], limit)
  }

  /** The cuts that are left behind the one at offset. */
  function CutsBehind(m: Message, size: nat, offset: nat): seq<Fragment>
    requires size > 0 && offset <= |m.body|
  {
    var f := Cut(m, offset, size);
    if f.End() < |m.body| then CutsFrom(m, size, f.End()) else []
  }

  lemma CutsStep(len: nat, suite: Suite, m: Message, size: nat, offset: nat, limit: int, room: int)
    requires suite.WellFormed() && size > 0 && offset <= |m.body|
    requires CutsClear(len, suite, CutsFrom(m, size, offset), limit, room)
    ensures var n := |Encode(Cut(m, offset, size))|;
      var j := Joined(len, Estimate(suite, n), limit);
      && SealClear(j, suite, n, room)
      && CutsClear(j + SealedLen(suite, n), suite, CutsBehind(m, size, offset), limit, room)
      && CutsPacked(j + SealedLen(suite, n), suite, CutsBehind(m, size, offset), limit)
         == CutsPacked(len, suite, CutsFrom(m, size, offset), limit)
  {
    hide Encode, SealClear, Joined;
    var fs := CutsFrom(m, size, offset);
    assert fs[0] == Cut(m, offset, size) && fs[1..] == CutsBehind(m, size, offset);
  }

  // ----- The flight -----

  /** What packing depends on: fragment sizes and suites by epoch, the PMTU in force, and what the
      flight leaves of the buffer. */
  datatype Frame = Frame(sizes: Sizes, suites: nat -> Suite, limit: int, room: int) {
    ghost predicate Sound() { forall epoch :: suites(epoch).WellFormed() }
  }

  /** The code does not refuse the record for want of room. */
  ghost predicate Taken(len: nat, r: Record, x: Frame)
    requires x.Sound()
  {
    if r.contentType == TYPE_HANDSHAKE then HoldsMessage(r) && x.sizes.For(r.epoch) > 0
    else
      var estimate := Estimate(x.suites(r.epoch), |r.payload|);
      Joined(len, estimate, x.limit) + estimate <= x.room
  }

  /** Room for a fragment, or for the whole record if it is no handshake record. */
  ghost predicate RecordFits(r: Record, x: Frame)
    requires x.Sound()
  {
    if r.contentType == TYPE_HANDSHAKE then x.sizes.For(r.epoch) > 0
    else Estimate(x.suites(r.epoch), |r.payload|) <= x.room
  }

  /** The PMTU in force is acceptable, and leaves room for the records of the flight. */
  ghost predicate FlightFits(flight: seq<Record>, x: Frame)
    requires x.Sound()
  {
    x.limit >= MIN_PMTU && forall k :: 0 <= k < |flight| ==> RecordFits(flight[k], x)
  }

  /** A record that is taken fits when it is protected. */
  ghost predicate RecordClear(len: nat, r: Record, x: Frame)
    requires x.Sound()
  {
    Taken(len, r, x) ==>
      var suite := x.suites(r.epoch);
      if r.contentType == TYPE_HANDSHAKE then
        CutsClear(len, suite, Cuts(MessageOf(r), x.sizes.For(r.epoch)), x.limit, x.room)
      else SealClear(Joined(len, Estimate(suite, |r.payload|), x.limit), suite, |r.payload|, x.room)
  }

  ghost function RecordPacked(len: nat, r: Record, x: Frame): nat
    requires x.Sound() && Taken(len, r, x)
  {
    var suite := x.suites(r.epoch);
    if r.contentType == TYPE_HANDSHAKE then
      CutsPacked(len, suite, Cuts(MessageOf(r), x.sizes.For(r.epoch)), x.limit)
    else Joined(len, Estimate(suite, |r.payload|), x.limit) + SealedLen(suite, |r.payload|)
  }

  /** From record k on every record fits, up to one that is not taken. */
  ghost predicate FlightClear(len: nat, flight: seq<Record>, k: nat, x: Frame)
    requires x.Sound()
    decreases |flight| - k
  {
    k >= |flight| ||
    (&& RecordClear(len, flight[k], x)
     && (Taken(len, flight[k], x) ==> FlightClear(RecordPacked(len, flight[k], x), flight, k + 1, x)))
  }

  // ----- When a flight is clear -----

  /** The frame is that of the code: fragments are sized by the estimate, and the PMTU in force is
      at most the room. */
  ghost predicate Coded(x: Frame) {
    && x.Sound() && x.limit <= x.room <= 0x1_0000
    && forall epoch :: x.sizes.For(epoch) == x.limit - (RECORD_HEADER_LEN + HEADER_LEN + Overhead(x.suites(epoch), 0))
  }

  /** The room exceeds the PMTU in force by what the suite may add to an estimate. */
  ghost predicate Ample(suite: Suite, x: Frame)
    requires suite.WellFormed()
  {
    x.limit + Slack(suite) <= x.room
  }

  /** Records that are no handshake records are short enough for a datagram. */
  ghost predicate OthersShort(flight: seq<Record>, x: Frame)
    requires x.Sound()
  {
    forall r :: r in flight && r.contentType != TYPE_HANDSHAKE ==> Estimate(x.suites(r.epoch), |r.payload|) <= x.limit
  }

  /** For suites that are not CBC, and for all others if the room is ample, every flight is clear. */
  lemma {:induction false} AlwaysClear(len: nat, flight: seq<Record>, k: nat, x: Frame)
    requires Coded(x) && OthersShort(flight, x) && forall epoch :: Ample(x.suites(epoch), x)
    ensures FlightClear(len, flight, k, x)
    decreases |flight| - k
  {
    if k < |flight| {
      var r := flight[k];
      var suite := x.suites(r.epoch);
      assert Ample(suite, x);
      hide Estimate, SealedLen, Growth, Overhead, Encode, Cuts, HoldsMessage;
      if r.contentType == TYPE_HANDSHAKE {
        if Taken(len, r, x) {
          SizedCuts(MessageOf(r), x.sizes.For(r.epoch), 0);
          AlwaysCutsClear(len, suite, Cuts(MessageOf(r), x.sizes.For(r.epoch)), x);
        }
      } else {
        assert r in flight;
        AlwaysSealClear(Joined(len, Estimate(suite, |r.payload|), x.limit), suite, |r.payload|, x);
      }
      if Taken(len, r, x) {
        AlwaysClear(RecordPacked(len, r, x), flight, k + 1, x);
      }
    }
  }

  lemma AlwaysSealClear(len: nat, suite: Suite, n: nat, x: Frame)
    requires suite.WellFormed() && Ample(suite, x) && x.room <= 0x1_0000
    requires len + Estimate(suite, n) <= x.limit || (len == 0 && RECORD_HEADER_LEN + n + Overhead(suite, 0) <= x.limit)
    ensures SealClear(len, suite, n, x.room)
  {
    GrowthBounded(suite, n, 0);
    GrowthBounded(suite, n, RECORD_HEADER_LEN + n);
  }

  lemma SizedCuts(m: Message, size: nat, offset: nat)
    requires size > 0 && offset <= |m.body|
    ensures forall f :: f in CutsFrom(m, size, offset) ==> |Encode(f)| <= HEADER_LEN + size
    decreases |m.body| - offset
  {
    var f := Cut(m, offset, size);
    if f.End() < |m.body| {
      SizedCuts(m, size, f.End());
    }
  }

  lemma {:induction false} AlwaysCutsClear(len: nat, suite: Suite, fs: seq<Fragment>, x: Frame)
    requires suite.WellFormed() && Ample(suite, x) && x.room <= 0x1_0000
    requires forall f :: f in fs ==> RECORD_HEADER_LEN + |Encode(f)| + Overhead(suite, 0) <= x.limit
    ensures CutsClear(len, suite, fs, x.limit, x.room)
    decreases |fs|
  {
    if fs != [] {
      var n := |Encode(fs[0])|;
      var j := Joined(len, Estimate(suite, n), x.limit);
      assert fs[0] in fs;
      if j == 0 || j + Estimate(suite, n) <= x.limit {
        AlwaysSealClear(j, suite, n, x);
      }
      AlwaysCutsClear(j + SealedLen(suite, n), suite, fs[1..], x);
    }
  }

  // ----- When it is not -----

  /** What leaves no octet of an estimated limit to spare: a message of one full fragment, alone in a
      flight. */
  function FullRecord(m: Message, version: nat, epoch: nat): Record {
    Record(TYPE_HANDSHAKE, version, epoch, Encode(m.Whole()))
  }

  /** The datagram that such a flight becomes exceeds the PMTU in force exactly under a CBC suite for which
      header and data leave less behind the last block than the fixed part. Where that PMTU is what the
      flight leaves of the buffer, this is exactly when the record does not stay in the buffer. */
  lemma FullFlightIff(m: Message, suite: Suite, version: nat, epoch: nat, limit: int, room: int)
    requires suite.WellFormed() && m.WireSized() && limit <= room <= 0x1_0000
    requires 0 < |m.body| == limit - (RECORD_HEADER_LEN + HEADER_LEN + Overhead(suite, 0))
    ensures var x := Frame(Sizes(epoch, |m.body|, |m.body|), _ => suite, limit, room);
      var r := FullRecord(m, version, epoch);
      var over := suite.mode == Cbc
                  && (HEADER_LEN + |m.body| + suite.CbcFixed()) % suite.blockSize < suite.CbcFixed() % suite.blockSize;
      && Coded(x) && HoldsMessage(r) && MessageOf(r) == m && Taken(0, r, x)
      && (RecordPacked(0, r, x) > limit <==> over)
      && (room == limit ==> (FlightClear(0, [r], 0, x) <==> !over))
  {
    FullFlight(m, suite, version, epoch, limit, room);
    FullFragmentExceedsIff(suite, limit);
    hide Encode, Growth, Overhead, HoldsMessage, MessageOf, Cuts, FlightClear, RecordPacked, Taken, FullRecord;
  }

  lemma FullFlight(m: Message, suite: Suite, version: nat, epoch: nat, limit: int, room: int)
    requires suite.WellFormed() && m.WireSized() && m.body != []
    ensures var x := Frame(Sizes(epoch, |m.body|, |m.body|), _ => suite, limit, room);
      var r := FullRecord(m, version, epoch);
      && HoldsMessage(r) && MessageOf(r) == m && Taken(0, r, x)
      && RecordPacked(0, r, x) == SealedLen(suite, HEADER_LEN + |m.body|)
      && (FlightClear(0, [r], 0, x) <==> SealClear(0, suite, HEADER_LEN + |m.body|, room))
  {
    var x := Frame(Sizes(epoch, |m.body|, |m.body|), _ => suite, limit, room);
    var r := FullRecord(m, version, epoch);
    WholeRead(m, r);
    OneCutOnly(m);
    hide Encode, Growth, Overhead, HoldsMessage, MessageOf, Cuts, SealClear;
    OneFragmentPacked(m.Whole(), suite, limit, room);
    assert FlightClear(RecordPacked(0, r, x), [r], 1, x);
  }

  lemma OneFragmentPacked(f: Fragment, suite: Suite, limit: int, room: int)
    requires suite.WellFormed()
    ensures CutsPacked(0, suite, [f], limit) == SealedLen(suite, |Encode(f)|)
    ensures CutsClear(0, suite, [f], limit, room) <==> SealClear(0, suite, |Encode(f)|, room)
  {
    assert [f][1..] == [];
    hide Encode, SealClear;
  }

  lemma OneCutOnly(m: Message)
    requires m.body != []
    ensures Cuts(m, |m.body|) == [m.Whole()] && |Encode(m.Whole())| == HEADER_LEN + |m.body|
  {
    assert m.body[0..|m.body|] == m.body;
    assert Cut(m, 0, |m.body|) == m.Whole();
  }

  /** AES-128-CBC with HMAC-SHA1 and an explicit IV. */
  function AesCbcSha(): (suite: Suite)
    ensures suite.WellFormed() && suite.CbcFixed() == 36
  {
    Suite(Cbc, 20, true, 16, 0, 16)
  }

  /** A Certificate of n octets. */
  function Certificate(n: nat): Message { Message(11, 2, seq(n, _ => 0)) }

  /** With it and the default PMTU of 1452 octets, a message of one full fragment becomes a datagram of
      1453. */
  lemma CbcExceedsPmtu()
    ensures var n := 1452 - (RECORD_HEADER_LEN + HEADER_LEN + Overhead(AesCbcSha(), 0));
      var x := Frame(Sizes(1, n, n), _ => AesCbcSha(), 1452, 16909);
      var r := FullRecord(Certificate(n), DTLS_VERSION_1_2, 1);
      && FlightClear(0, [r], 0, x) && Taken(0, r, x) && RecordPacked(0, r, x) == 1453
  {
    FullFlight(Certificate(1379), AesCbcSha(), DTLS_VERSION_1_2, 1, 1452, 16909);
    hide FlightClear, RecordPacked, Taken, FullRecord;
  }

  /** With 601 octets left of the buffer, a fragment becomes a record of 605. */
  lemma FragmentLeavesBuffer()
    ensures var n := 601 - (RECORD_HEADER_LEN + HEADER_LEN + Overhead(AesCbcSha(), 0));
      var x := Frame(Sizes(1, n, n), _ => AesCbcSha(), 601, 601);
      var r := FullRecord(Certificate(n), DTLS_VERSION_1_2, 1);
      && n == 528 && !FlightClear(0, [r], 0, x) && Taken(0, r, x) && RecordPacked(0, r, x) == 605
  {
    FullFlight(Certificate(528), AesCbcSha(), DTLS_VERSION_1_2, 1, 601, 601);
    hide FlightClear, RecordPacked, Taken, FullRecord;
  }

  /** The buffer that the interface allocates for 515 octets: a record of 988 sent alone is estimated to
      fill it, and is 13 octets longer. */
  lemma RecordLeavesBuffer()
    ensures var size := 515 + RECORD_HEADER_LEN + 512;
      && Estimate(AesCbcSha(), 988) == size && !SealClear(0, AesCbcSha(), 988, size)
      && SealedLen(AesCbcSha(), 988) == size + 13
  {
  }
}
