/** The records of a flight, how handshake messages are cut, and sealed records on the wire. */
module FlightSpec {
  import opened Bytes
  import opened Fragments
  import opened Reassembly
  import opened ReceiveSpec
  import opened Protection
  import SequenceNumber

  const MIN_PMTU: nat := 528

  // ----- Cutting a handshake message -----

  /** The fragment that starts at offset. */
  function Cut(m: Message, offset: nat, maxFragSize: nat): Fragment
    requires offset <= |m.body|
  {
    var n := if |m.body| - offset < maxFragSize then |m.body| - offset else maxFragSize;
    Fragment(m.msgType, |m.body|, m.msgSeq, offset, m.body[offset..offset + n])
  }

  /** The fragments from offset on; the loop body runs at least once. */
  function CutsFrom(m: Message, maxFragSize: nat, offset: nat): (fs: seq<Fragment>)
    requires maxFragSize > 0 && offset <= |m.body|
    ensures fs != []
    decreases |m.body| - offset
  {
    var f := Cut(m, offset, maxFragSize);
    if f.End() < |m.body| then [f] + CutsFrom(m, maxFragSize, f.End()) else [f]
  }

  function Cuts(m: Message, maxFragSize: nat): (fs: seq<Fragment>)
    requires maxFragSize > 0
    ensures fs != []
  {
    CutsFrom(m, maxFragSize, 0)
  }

  function Payloads(fs: seq<Fragment>): seq<byte> {
    if fs == [] then [] else fs[0].data + Payloads(fs[1..])
  }

  /** Each fragment begins where the previous one ended. */
  predicate Contiguous(fs: seq<Fragment>, start: nat) {
    fs == [] || (fs[0].offset == start && Contiguous(fs[1..], fs[0].End()))
  }

  /** The cuts form a contiguous ordered partition of the message. */
  lemma {:induction false} CutsPartition(m: Message, maxFragSize: nat, offset: nat)
    requires maxFragSize > 0 && offset <= |m.body|
    requires offset == |m.body| ==> m.body == []
    ensures var fs := CutsFrom(m, maxFragSize, offset);
      && (forall f :: f in fs ==> CutOf(f, m) && |f.data| <= maxFragSize)
      && Contiguous(fs, offset)
      && Payloads(fs) == m.body[offset..]
    decreases |m.body| - offset
  {
    var f := Cut(m, offset, maxFragSize);
    OneCut(m, offset, maxFragSize);
    hide Cut, CutOf, Payloads, Contiguous;
    if f.End() < |m.body| {
      CutsPartition(m, maxFragSize, f.End());
      OneMore(f, CutsFrom(m, maxFragSize, f.End()));
    } else {
      OneMore(f, []);
      assert [f] + [] == [f];
    }
  }

  lemma OneCut(m: Message, offset: nat, maxFragSize: nat)
    requires maxFragSize > 0 && offset <= |m.body| && (offset == |m.body| ==> m.body == [])
    ensures var f := Cut(m, offset, maxFragSize);
      && CutOf(f, m) && f.offset == offset && |f.data| <= maxFragSize && f.End() <= |m.body|
      && (f.End() < |m.body| ==> offset < f.End())
      && f.data + m.body[f.End()..] == m.body[offset..]
  {
  }

  lemma OneMore(f: Fragment, fs: seq<Fragment>)
    ensures Payloads([f] + fs) == f.data + Payloads(fs) && (fs == [] ==> Payloads(fs) == [])
    ensures Contiguous([f] + fs, f.offset) <==> fs == [] || Contiguous(fs, f.End())
  {
    assert ([f] + fs)[1..] == fs;
  }

  /** There are as few of them as the size allows: the length divided by the size, rounded
      up, and one for an empty message. */
  lemma {:induction false} CutsCount(m: Message, maxFragSize: nat, offset: nat)
    requires maxFragSize > 0 && offset <= |m.body|
    requires offset == |m.body| ==> m.body == []
    ensures var n := |CutsFrom(m, maxFragSize, offset)|;
      if m.body == [] then n == 1
      else (n - 1) * maxFragSize < |m.body| - offset <= n * maxFragSize
    decreases |m.body| - offset
  {
    var f := Cut(m, offset, maxFragSize);
    if f.End() < |m.body| {
      CutsCount(m, maxFragSize, f.End());
      var r := |CutsFrom(m, maxFragSize, f.End())|;
      assert (r + 1) * maxFragSize == r * maxFragSize + maxFragSize;
      assert r * maxFragSize == (r - 1) * maxFragSize + maxFragSize;
    }
  }

  /** Together the cuts cover the message. */
  lemma {:induction false} CutsCover(m: Message, maxFragSize: nat, offset: nat, x: int)
    requires maxFragSize > 0 && offset <= x < |m.body|
    ensures Covers(CutsFrom(m, maxFragSize, offset), x)
    decreases |m.body| - offset
  {
    var f := Cut(m, offset, maxFragSize);
    var fs := CutsFrom(m, maxFragSize, offset);
    assert fs[0] == f;
    if f.End() <= x {
      CutsCover(m, maxFragSize, f.End(), x);
      CoversCons(f, CutsFrom(m, maxFragSize, f.End()), x);
    }
  }

  /** Round trip over any network: fragments taken from cuts of m under any sizes, in any
      order, any of them repeated or missing, rebuild m exactly when they cover it. */
  lemma CutsRoundTrip(m: Message, fs: seq<Fragment>, sizes: seq<nat>, capacity: int)
    requires fs != [] && |sizes| == |fs|
    requires forall k :: 0 <= k < |fs| ==> sizes[k] > 0 && fs[k] in Cuts(m, sizes[k])
    ensures var r := ReassembleAll(fs, capacity);
      match r
      case Rejected(e) => e == Reassembly.BufferOverflow
      case Queued(q) =>
        && q != []
        && (Complete(q[0]) <==> forall x :: 0 <= x < |m.body| ==> Covers(fs, x))
        && (Complete(q[0]) ==> EncodeQueue(q) == Encode(m.Whole()))
  {
    forall f | f in fs ensures CutOf(f, m) {
      var k :| 0 <= k < |fs| && fs[k] == f;
      CutsPartition(m, sizes[k], 0);
    }
    RoundTrip(fs, capacity, m);
  }

  /** In particular one complete set of cuts among the arrivals is enough. */
  lemma OneFullSetSuffices(m: Message, fs: seq<Fragment>, size: nat, capacity: int)
    requires size > 0 && (forall f :: f in fs ==> CutOf(f, m))
    requires forall f :: f in Cuts(m, size) ==> f in fs
    requires ReassembleAll(fs, capacity).Queued?
    ensures EncodeQueue(ReassembleAll(fs, capacity).queue) == Encode(m.Whole())
  {
    assert Cuts(m, size)[0] in fs;
    RoundTrip(fs, capacity, m);
    forall x | 0 <= x < |m.body| ensures Covers(fs, x) {
      CutsCover(m, size, 0, x);
      var c := Cuts(m, size);
      var k :| 0 <= k < |c| && c[k].offset <= x < c[k].End();
      assert c[k] in fs;
    }
  }

  // ----- Records -----

  /** A record in plaintext; in the buffered flight its sequence number is still zero. */
  datatype Record = Record(contentType: byte, version: nat, epoch: nat, payload: seq<byte>) {
    predicate WireSized() { version < 0x1_0000 && epoch < 0x1_0000 && |payload| < 0x1_0000 }
  }

  function Store48(v: nat): (r: seq<byte>)
    ensures |r| == 6
  {
    Store24(v / 0x100_0000) + Store24(v)
  }

  /** A number of 48 bits is read back. */
  lemma NumberStored(n: nat)
    requires n < SequenceNumber.MODULUS
    ensures Load48(Store48(n), 0) == n
  {
    hide Store24;
    var hi, lo := n / 0x100_0000, n % 0x100_0000;
    assert n == hi * 0x100_0000 + lo;
    LowThreeOctets(0, hi);
    LowThreeOctets(hi, lo);
  }

  lemma LowThreeOctets(hi: nat, lo: nat)
    requires lo < 0x100_0000
    ensures |Store24(hi * 0x100_0000 + lo)| == 3 && Load24(Store24(hi * 0x100_0000 + lo), 0) == lo
  {
    var a: byte, b: byte, c: byte := lo / 0x1_0000, lo / 0x100 % 0x100, lo % 0x100;
    assert lo == a as nat * 0x1_0000 + b as nat * 0x100 + c;
    LowOctets(hi, a, b, c);
  }

  lemma LowOctets(hi: nat, a: byte, b: byte, c: byte)
    ensures Store24(hi * 0x100_0000 + (a as nat * 0x1_0000 + b as nat * 0x100 + c)) == [a, b, c]
  {
    var x := hi * 0x100_0000 + (a as nat * 0x1_0000 + b as nat * 0x100 + c);
    assert x / 0x1_0000 == hi * 0x100 + a;
    assert x / 0x100 == hi * 0x1_0000 + a as nat * 0x100 + b;
  }

  /** The eleven octets in front of the length field. */
  function RecordHeader(r: Record, seqNum: nat): (h: seq<byte>)
    ensures |h| == 11
  {
    [r.contentType] + Store16(r.version) + Store16(r.epoch) + Store48(seqNum)
  }

  /** A record with some body on the wire or in the flight buffer. */
  function RecordBytes(r: Record, seqNum: nat, body: seq<byte>): (s: seq<byte>)
    ensures |s| == RECORD_HEADER_LEN + |body|
  {
    RecordHeader(r, seqNum) + Store16(|body|) + body
  }

  function Buffered(r: Record): (s: seq<byte>)
    ensures |s| == RECORD_HEADER_LEN + |r.payload|
  {
    RecordBytes(r, 0, r.payload)
  }

  function EncodeFlight(flight: seq<Record>): seq<byte> {
    if flight == [] then [] else EncodeFlight(flight[..|flight| - 1]) + Buffered(flight[|flight| - 1])
  }

  /** Where record number i of a stored flight lies. */
  lemma {:induction false} FlightSplit(flight: seq<Record>, i: nat)
    requires i < |flight|
    ensures var p := |EncodeFlight(flight[..i])|;
      && |EncodeFlight(flight[..i + 1])| == p + |Buffered(flight[i])| <= |EncodeFlight(flight)|
      && EncodeFlight(flight)[p..p + |Buffered(flight[i])|] == Buffered(flight[i])
  {
    var init := flight[..|flight| - 1];
    assert flight[..i + 1][..i] == flight[..i];
    if i == |flight| - 1 {
      assert flight[..i + 1] == flight && flight[..i] == init;
    } else {
      FlightSplit(init, i);
      assert init[..i] == flight[..i] && init[..i + 1] == flight[..i + 1];
      var p, n := |EncodeFlight(flight[..i])|, |Buffered(flight[i])|;
      assert EncodeFlight(flight)[p..p + n] == EncodeFlight(init)[p..p + n];
    }
  }

  /** Reading back the header fields of a record that sits at position p of a buffer. */
  lemma HeaderReadsBack(s: seq<byte>, p: nat, r: Record, seqNum: nat, body: seq<byte>)
    requires r.WireSized() && |body| < 0x1_0000
    requires p + RECORD_HEADER_LEN <= |s|
    requires s[p..p + RECORD_HEADER_LEN] == RecordBytes(r, seqNum, body)[..RECORD_HEADER_LEN]
    ensures s[p] == r.contentType
    ensures Load16(s, p + 1) == r.version
    ensures Load16(s, p + 3) == r.epoch
    ensures Load16(s, p + 11) == |body|
  {
    hide RecordBytes, RecordHeader, Store16;
    var h := RecordBytes(r, seqNum, body);
    forall k | 0 <= k < RECORD_HEADER_LEN ensures s[p + k] == h[k] {
      assert s[p..p + RECORD_HEADER_LEN][k] == h[k];
    }
    HeaderOctets(r, seqNum, body);
    Loads16(r.version);
    Loads16(r.epoch);
    Loads16(|body|);
    assert s[p + 0] == h[0];
  }

  lemma HeaderOctets(r: Record, seqNum: nat, body: seq<byte>)
    ensures var h := RecordBytes(r, seqNum, body);
      && h[0] == r.contentType && h[1] == Store16(r.version)[0] && h[2] == Store16(r.version)[1]
      && h[3] == Store16(r.epoch)[0] && h[4] == Store16(r.epoch)[1]
      && h[11] == Store16(|body|)[0] && h[12] == Store16(|body|)[1]
  {
    var h := RecordBytes(r, seqNum, body);
    assert h[..11] == RecordHeader(r, seqNum);
    assert h[0] == h[..11][0] && h[1] == h[..11][1] && h[2] == h[..11][2] && h[3] == h[..11][3] && h[4] == h[..11][4];
    hide Store16;
  }

  lemma Loads16(v: nat)
    requires v < 0x1_0000
    ensures (Store16(v)[0] as nat) * 0x100 + Store16(v)[1] == v
  {
  }

  // ----- Protection of records -----

  /** A cipher state: enc takes the header, some randomness and the plaintext. */
  datatype Cipher = Cipher(suite: Suite, enc: (seq<byte>, nat, seq<byte>) -> seq<byte>,
                           dec: (seq<byte>, seq<byte>) -> Opened)

  ghost predicate Lawful(c: Cipher) {
    && c.suite.WellFormed()
    && forall h, k, p :: c.dec(h, c.enc(h, k, p)) == Opened(p) && |c.enc(h, k, p)| == |p| + Growth(c.suite, |p|)
  }

  /** A record that was given a number and protected. */
  datatype Sealed = Sealed(record: Record, seqNum: nat, body: seq<byte>) {
    function Octets(): (s: seq<byte>)
      ensures |s| == RECORD_HEADER_LEN + |body|
    {
      RecordBytes(record, seqNum, body)
    }
  }

  /** Protected by the cipher, with every length within its field. */
  predicate SealedBy(w: Sealed, c: Cipher) {
    && w.record.WireSized() && |w.body| < 0x1_0000
    && if c.suite.Unprotected() then w.body == w.record.payload
       else c.dec(RecordHeader(w.record, w.seqNum), w.body) == Opened(w.record.payload)
  }

  /** The other end of the cipher. */
  function Opener(c: Cipher): Decryptor { Decryptor(c.suite.Unprotected(), c.dec) }

  function Datagram(ws: seq<Sealed>): seq<byte> {
    if ws == [] then [] else Datagram(ws[..|ws| - 1]) + ws[|ws| - 1].Octets()
  }

  function Plain(ws: seq<Sealed>): seq<Record> {
    seq(|ws|, k requires 0 <= k < |ws| => ws[k].record)
  }

  function Flatten(ds: seq<seq<Sealed>>): seq<Sealed> {
    if ds == [] then [] else Flatten(ds[..|ds| - 1]) + ds[|ds| - 1]
  }

  /** What one sealed record does to the other side: the first record of an arriving datagram
      is opened to exactly the plaintext record, and the rest of the datagram stays. */
  lemma ReadBack(s: RxState, w: Sealed, c: Cipher, rest: seq<byte>)
    requires SealedBy(w, c) && |w.record.payload| <= MAX_RECORD_LENGTH
    requires s.datagram == w.Octets() + rest && s.epoch == w.record.epoch
    ensures var (next, status, update) := ReadRecord(s, Opener(c), true);
      && status == Ok && update
      && next == s.(datagram := rest, contentType := w.record.contentType,
                    recordVersion := w.record.version, record := w.record.payload)
  {
    FrontRecord(s.datagram, w, rest);
    HeaderCopied(s.datagram);
  }

  lemma HeaderCopied(d: seq<byte>)
    requires |d| >= 11
    ensures d[..11][0] == d[0] && Load16(d[..11], 1) == Load16(d, 1) && Load16(d[..11], 3) == Load16(d, 3)
  {
  }

  /** The parts of the record in front of a datagram. */
  lemma FrontRecord(d: seq<byte>, w: Sealed, rest: seq<byte>)
    requires w.record.WireSized() && |w.body| < 0x1_0000 && d == w.Octets() + rest
    ensures RecordFramed(d) && Load16(d, 11) == |w.body|
    ensures d[0] == w.record.contentType && Load16(d, 1) == w.record.version && Load16(d, 3) == w.record.epoch
    ensures d[..11] == RecordHeader(w.record, w.seqNum)
    ensures d[RECORD_HEADER_LEN..RECORD_HEADER_LEN + |w.body|] == w.body && d[RECORD_HEADER_LEN + |w.body|..] == rest
  {
    assert d[0..0 + RECORD_HEADER_LEN] == w.Octets()[..RECORD_HEADER_LEN];
    HeaderReadsBack(d, 0, w.record, w.seqNum, w.body);
    hide Load16, RecordHeader;
  }

  /** The number of that record. */
  lemma FrontNumber(d: seq<byte>, w: Sealed, rest: seq<byte>)
    requires w.record.WireSized() && |w.body| < 0x1_0000 && d == w.Octets() + rest
    requires w.seqNum < SequenceNumber.MODULUS
    ensures SeqNum(d) == w.seqNum
  {
    FrontRecord(d, w, rest);
    NumberStored(w.seqNum);
    NumberIn(d[..11], w.record, w.seqNum);
    hide Store48, Load16, RecordHeader;
    assert d[..11][5..][0] == d[5] && d[..11][5..][1] == d[6] && d[..11][5..][2] == d[7];
    assert d[..11][5..][3] == d[8] && d[..11][5..][4] == d[9] && d[..11][5..][5] == d[10];
  }

  lemma NumberIn(h: seq<byte>, r: Record, seqNum: nat)
    requires h == RecordHeader(r, seqNum)
    ensures |h| == 11 && h[5..] == Store48(seqNum)
  {
    hide Store48;
  }

  /** A datagram from its first record on. */
  lemma {:induction false} DatagramFront(ws: seq<Sealed>)
    requires ws != []
    ensures Datagram(ws) == ws[0].Octets() + Datagram(ws[1..])
  {
    var init := ws[..|ws| - 1];
    if init == [] {
      assert ws[1..] == [] && Datagram(init) == [];
    } else {
      DatagramFront(init);
      assert ws[1..][..|ws[1..]| - 1] == init[1..];
    }
  }

  // ----- What a flight must become -----

  /** The handshake message whose octets fill the payload. */
  function MessageOf(r: Record): Message
    requires |r.payload| >= HEADER_LEN
  {
    Message(r.payload[0], Load16(r.payload, 4), r.payload[HEADER_LEN..])
  }

  /** A buffered handshake record holds one whole message, unfragmented. */
  predicate HoldsMessage(r: Record) {
    |r.payload| >= HEADER_LEN && r.payload == Encode(MessageOf(r).Whole())
  }

  predicate FlightWellFormed(flight: seq<Record>) {
    forall k :: 0 <= k < |flight| ==>
      flight[k].WireSized() && (flight[k].contentType == TYPE_HANDSHAKE ==> HoldsMessage(flight[k]))
  }

  function FragmentRecords(version: nat, epoch: nat, fs: seq<Fragment>): (rs: seq<Record>)
    ensures |rs| == |fs|
  {
    seq(|fs|, k requires 0 <= k < |fs| => Record(TYPE_HANDSHAKE, version, epoch, Encode(fs[k])))
  }

  /** The fragment sizes in force: one for the current epoch, one for the previous. */
  datatype Sizes = Sizes(epoch: nat, current: int, previous: int) {
    function For(e: nat): int { if e == epoch then current else previous }
  }

  predicate Sized(r: Record, sizes: Sizes) {
    r.contentType == TYPE_HANDSHAKE ==> HoldsMessage(r) && sizes.For(r.epoch) > 0
  }

  /** A handshake record becomes the records of its fragments, any other record itself. */
  function Expand(r: Record, sizes: Sizes): seq<Record>
    requires Sized(r, sizes)
  {
    if r.contentType == TYPE_HANDSHAKE then
      FragmentRecords(r.version, r.epoch, Cuts(MessageOf(r), sizes.For(r.epoch)))
    else [r]
  }

  function ExpandFlight(flight: seq<Record>, sizes: Sizes): seq<Record>
    requires forall k :: 0 <= k < |flight| ==> Sized(flight[k], sizes)
  {
    if flight == [] then []
    else ExpandFlight(flight[..|flight| - 1], sizes) + Expand(flight[|flight| - 1], sizes)
  }

  // ----- The walk over the buffered flight -----

  function StartOf(flight: seq<Record>, k: nat): nat
    requires k <= |flight|
  {
    |EncodeFlight(flight[..k])|
  }

  /** Where the walk goes on behind record k: a handshake record is passed by its buffered
      length, any other one by the length its copy has after protection. */
  function Behind(flight: seq<Record>, suites: nat -> Suite, k: nat): nat
    requires k < |flight| && forall e :: suites(e).WellFormed()
  {
    var r := flight[k];
    StartOf(flight, k) + |Buffered(r)|
      + if r.contentType == TYPE_HANDSHAKE then 0 else Growth(suites(r.epoch), |r.payload|)
  }

  /** From record k on the walk comes to the start of every record. */
  ghost predicate VisitsAll(flight: seq<Record>, suites: nat -> Suite, k: nat)
    requires forall e :: suites(e).WellFormed()
    decreases |flight| - k
  {
    k + 1 >= |flight| || (Behind(flight, suites, k) == StartOf(flight, k + 1) && VisitsAll(flight, suites, k + 1))
  }

  /** From record k on no record but the last is both protected and no handshake record. */
  predicate OnTrack(flight: seq<Record>, suites: nat -> Suite, k: nat) {
    forall j :: k <= j < |flight| - 1 ==>
      flight[j].contentType == TYPE_HANDSHAKE || suites(flight[j].epoch).Unprotected()
  }

  /** This is exactly when the walk does. */
  lemma {:induction false} VisitsAllIff(flight: seq<Record>, suites: nat -> Suite, k: nat)
    requires forall e :: suites(e).WellFormed() && suites(e).Authenticates()
    ensures VisitsAll(flight, suites, k) <==> OnTrack(flight, suites, k)
    decreases |flight| - k
  {
    if k + 1 < |flight| {
      VisitsAllIff(flight, suites, k + 1);
      FlightSplit(flight, k);
      GrowthPositive(suites(flight[k].epoch), |flight[k].payload|);
    }
  }

  /** One step of a walk that stays on track, the last one included. */
  lemma StaysOnTrack(flight: seq<Record>, suites: nat -> Suite, k: nat)
    requires (forall e :: suites(e).WellFormed()) && k < |flight| && OnTrack(flight, suites, 0)
    ensures if k + 1 < |flight| then Behind(flight, suites, k) == StartOf(flight, k + 1)
      else Behind(flight, suites, k) >= |EncodeFlight(flight)|
  {
    FlightSplit(flight, k);
    assert flight[..|flight|] == flight;
    if suites(flight[k].epoch).Unprotected() {
      NothingAdded(suites(flight[k].epoch), |flight[k].payload|, 0);
    }
  }

  /** A ChangeCipherSpec written under AES-128-CBC with HMAC-SHA1, as in a second handshake: the
      walk passes it by the length of its sealed copy, which takes it beyond the Finished message
      that follows, and the flight goes out without that message. */
  lemma FinishedSkipped()
    ensures exists flight: seq<Record>, suites: nat -> Suite ::
      && (forall e :: suites(e).WellFormed() && suites(e).Authenticates())
      && |flight| == 2 && FlightWellFormed(flight) && flight[0].contentType == TYPE_CHANGE_CIPHER_SPEC
      && flight[1].contentType == TYPE_HANDSHAKE && HoldsMessage(flight[1]) && MessageOf(flight[1]).msgType == FINISHED
      && Behind(flight, suites, 0) >= |EncodeFlight(flight)|
  {
    var suite := Suite(Cbc, 20, true, 16, 0, 16);
    var suites: nat -> Suite := _ => suite;
    var m := Message(FINISHED, 0, seq(12, _ => 0));
    var ccs := Record(TYPE_CHANGE_CIPHER_SPEC, DTLS_VERSION_1_2, 1, [1]);
    var finished := Record(TYPE_HANDSHAKE, DTLS_VERSION_1_2, 2, Encode(m.Whole()));
    var flight := [ccs, finished];
    WholeRead(m, finished);
    assert Growth(suite, 1) == 47;
    FlightSplit(flight, 0);
    FlightSplit(flight, 1);
    assert flight[..0] == [] && flight[..1] == [ccs] && flight[..2] == flight;
    assert Behind(flight, suites, 0) == 13 + 1 + 47 && |EncodeFlight(flight)| == 14 + 37;
  }

  /** The payload that a message was encoded into holds that message. */
  lemma WholeRead(m: Message, r: Record)
    requires m.WireSized() && r.payload == Encode(m.Whole())
    ensures HoldsMessage(r) && MessageOf(r) == m
  {
    var e := r.payload;
    assert e[0..0 + |e|] == e;
    DecodeEncode(e, 0, m.Whole());
    assert e[HEADER_LEN..] == m.body;
  }

  // ----- Sequence numbers -----

  /** A sequence number has 48 bits. */
  function Wrap(n: nat): nat { n % SequenceNumber.MODULUS }

  lemma WrapDistinct(base: nat, a: nat, b: nat)
    requires base < SequenceNumber.MODULUS && a < b < SequenceNumber.MODULUS
    ensures Wrap(base + a) != Wrap(base + b)
    ensures base + b < SequenceNumber.MODULUS ==> Wrap(base + a) < Wrap(base + b)
  {
  }

  /** How many of the records belong to the epoch. */
  function Count(ws: seq<Sealed>, epoch: nat): nat {
    if ws == [] then 0
    else Count(ws[..|ws| - 1], epoch) + if ws[|ws| - 1].record.epoch == epoch then 1 else 0
  }

  /** Within the epoch the records carry base, base + 1, ... modulo 2^48. */
  predicate NumberedFrom(ws: seq<Sealed>, epoch: nat, base: nat) {
    ws == [] ||
    (var init, w := ws[..|ws| - 1], ws[|ws| - 1];
     NumberedFrom(init, epoch, base) &&
     (w.record.epoch == epoch ==> w.seqNum == Wrap(base + Count(init, epoch))))
  }

  lemma CountSnoc(ws: seq<Sealed>, w: Sealed, epoch: nat)
    ensures Count(ws + [w], epoch) == Count(ws, epoch) + if w.record.epoch == epoch then 1 else 0
  {
    assert (ws + [w])[..|ws|] == ws;
  }

  lemma NumberedSnoc(ws: seq<Sealed>, w: Sealed, epoch: nat, base: nat)
    requires NumberedFrom(ws, epoch, base)
    requires w.record.epoch == epoch ==> w.seqNum == Wrap(base + Count(ws, epoch))
    ensures NumberedFrom(ws + [w], epoch, base)
  {
    assert (ws + [w])[..|ws|] == ws;
  }

  lemma {:induction false} NumberAt(ws: seq<Sealed>, epoch: nat, base: nat, i: nat)
    requires NumberedFrom(ws, epoch, base) && i < |ws| && ws[i].record.epoch == epoch
    ensures ws[i].seqNum == Wrap(base + Count(ws[..i], epoch))
  {
    if i < |ws| - 1 {
      var init := ws[..|ws| - 1];
      NumberAt(init, epoch, base, i);
      assert init[..i] == ws[..i];
    }
  }

  lemma {:induction false} CountMonotone(ws: seq<Sealed>, i: nat, j: nat, epoch: nat)
    requires i < j <= |ws| && ws[i].record.epoch == epoch
    ensures Count(ws[..i], epoch) < Count(ws[..j], epoch) <= Count(ws, epoch)
    decreases j - i, |ws| - j
  {
    assert ws[..j][..j - 1] == ws[..j - 1];
    if j - 1 > i { CountMonotone(ws, i, j - 1, epoch); }
    if j == |ws| {
      assert ws[..j] == ws;
    } else {
      CountPrefix(ws, j, epoch);
    }
  }

  lemma {:induction false} CountPrefix(ws: seq<Sealed>, j: nat, epoch: nat)
    requires j <= |ws|
    ensures Count(ws[..j], epoch) <= Count(ws, epoch)
    decreases |ws| - j
  {
    if j < |ws| {
      CountPrefix(ws, j + 1, epoch);
      assert ws[..j + 1][..j] == ws[..j];
    } else {
      assert ws[..j] == ws;
    }
  }

  /** Fewer than 2^48 records in an epoch that started at base never repeat a number, and the
      numbers rise as long as the counter does not wrap. */
  lemma NumbersNeverRepeat(ws: seq<Sealed>, epoch: nat, base: nat, i: nat, j: nat)
    requires NumberedFrom(ws, epoch, base) && base < SequenceNumber.MODULUS
    requires i < j < |ws| && ws[i].record.epoch == epoch && ws[j].record.epoch == epoch
    requires Count(ws, epoch) <= SequenceNumber.MODULUS
    ensures ws[i].seqNum != ws[j].seqNum
    ensures base + Count(ws, epoch) <= SequenceNumber.MODULUS ==> ws[i].seqNum < ws[j].seqNum
  {
    hide Wrap, NumberedFrom, Count;
    NumberAt(ws, epoch, base, i);
    NumberAt(ws, epoch, base, j);
    CountMonotone(ws, i, j, epoch);
    CountMonotone(ws, j, |ws|, epoch);
    assert ws[..|ws|] == ws;
    WrapDistinct(base, Count(ws[..i], epoch), Count(ws[..j], epoch));
  }
}
