/** What the receive path of the DTLS record layer does to its state, on values: one call of
    dtlsProcessRecord, one call of dtlsReadRecord. */
module ReceiveSpec {
  import opened Bytes
  import opened Fragments
  import Reassembly

  datatype Entity = Client | Server

  /** Handshake states, in the order of their numbers in tls.h. */
  const STATE_CLIENT_HELLO: nat := 1
  const STATE_HELLO_VERIFY_REQUEST: nat := 4
  const STATE_SERVER_HELLO: nat := 6
  const STATE_SERVER_HELLO_DONE: nat := 15
  const STATE_CLIENT_CHANGE_CIPHER_SPEC: nat := 19
  const STATE_CLIENT_FINISHED: nat := 21
  const STATE_SERVER_CHANGE_CIPHER_SPEC: nat := 23
  const STATE_SERVER_FINISHED: nat := 25
  const STATE_APPLICATION_DATA: nat := 30

  /** Record content types. */
  const TYPE_CHANGE_CIPHER_SPEC: byte := 20
  const TYPE_ALERT: byte := 21
  const TYPE_HANDSHAKE: byte := 22
  const TYPE_APPLICATION_DATA: byte := 23

  /** Handshake message types. */
  const CLIENT_HELLO: byte := 1
  const HELLO_VERIFY_REQUEST: byte := 3
  const SERVER_HELLO_DONE: byte := 14
  const FINISHED: byte := 20

  const CHANGE_CIPHER_SPEC_LEN: nat := 1
  const ALERT_LEN: nat := 2
  const RECORD_HEADER_LEN: nat := 13
  const MAX_RECORD_LENGTH: nat := 16384

  const TLS_VERSION_1_2: nat := 0x0303
  const DTLS_VERSION_1_0: nat := 0xFEFF
  const DTLS_VERSION_1_2: nat := 0xFEFD

  /** dtlsTranslateVersion */
  function TranslateVersion(version: nat): nat {
    if version == TLS_VERSION_1_2 then DTLS_VERSION_1_2 else DTLS_VERSION_1_0
  }

  datatype Status =
    | Ok
    | InvalidLength
    | InvalidSequenceNumber
    | VersionNotSupported
    | UnexpectedMessage
    | BufferOverflow
    | InvalidEpoch
    | DecryptionFailed
    | RecordOverflow

  function FromReassembly(e: Reassembly.Error): Status {
    match e
    case UnexpectedMessage => UnexpectedMessage
    case BufferOverflow => BufferOverflow
  }

  /** The receive half of the TLS context. record is the unread part of the current record,
      datagram the unread part of the current datagram, pending what is ready for the caller. */
  datatype RxState = RxState(
    entity: Entity,
    state: nat,
    version: nat,
    epoch: nat,
    queue: seq<Fragment>,
    msgSeq: nat,
    contentType: byte,
    recordVersion: nat,
    record: seq<byte>,
    datagram: seq<byte>,
    pending: seq<byte>)

  /** What a call asks of the sending half. */
  datatype TxEffect = TxEffect(rebase: bool, resend: bool, flightDone: bool)

  const NOTHING: TxEffect := TxEffect(false, false, false)

  datatype Result = Result(next: RxState, status: Status, effect: TxEffect)

  // ----- Handshake records -----

  /** The record starts with a whole handshake fragment. */
  predicate Framed(record: seq<byte>) {
    |record| >= HEADER_LEN && HEADER_LEN + Load24(record, 9) <= |record|
  }

  predicate FragmentLengthBad(f: Fragment) {
    |f.data| > f.length || (|f.data| == 0 && f.length != 0)
  }

  /** A server rebases its numbering on the first ClientHello. */
  predicate Rebases(s: RxState, f: Fragment) {
    f.msgType == CLIENT_HELLO && s.state == STATE_CLIENT_HELLO && s.entity == Server && s.epoch == 0
  }

  predicate EndsPeerFlight(msgType: byte) {
    msgType == CLIENT_HELLO || msgType == SERVER_HELLO_DONE || msgType == FINISHED
  }

  predicate EndsFlight(msgType: byte) {
    EndsPeerFlight(msgType) || msgType == HELLO_VERIFY_REQUEST
  }

  predicate VersionEnforced(s: RxState) {
    s.state > STATE_SERVER_HELLO && s.recordVersion != TranslateVersion(s.version)
  }

  /** The state after a possible rebase. */
  function Rebased(s: RxState, f: Fragment): RxState {
    if !FragmentLengthBad(f) && Rebases(s, f) then s.(msgSeq := f.msgSeq) else s
  }

  /** The tests in front of the reassembly queue. */
  function Screened(s: RxState, f: Fragment): Status {
    if FragmentLengthBad(f) then InvalidLength
    else if f.msgSeq != Rebased(s, f).msgSeq then InvalidSequenceNumber
    else if VersionEnforced(s) then VersionNotSupported
    else Ok
  }

  /** The first fragment of the last message of a peer flight that was already received. */
  predicate Resends(s: RxState, f: Fragment) {
    !FragmentLengthBad(f) && f.msgSeq < Rebased(s, f).msgSeq && EndsPeerFlight(f.msgType) && f.offset == 0
  }

  /** A fragment of the expected message: it is queued, and the message handed up when whole. */
  function Accept(s: RxState, f: Fragment, size: nat): Result
    requires Reassembly.Gapped(s.queue)
  {
    match Reassembly.Reassemble(s.queue, f, size - |s.datagram|)
    case Rejected(e) => Result(s.(queue := []), FromReassembly(e), NOTHING)
    case Queued(q) =>
      if Reassembly.Complete(q[0]) then
        Result(
          s.(queue := [], msgSeq := (s.msgSeq + 1) % 0x1_0000, pending := Encode(q[0])),
          Ok,
          NOTHING.(flightDone := EndsFlight(q[0].msgType)))
      else Result(s.(queue := q), Ok, NOTHING)
  }

  /** One handshake fragment, framing already checked. */
  function ProcessFragment(s: RxState, f: Fragment, size: nat): Result
    requires Reassembly.Gapped(s.queue)
  {
    var rebase := !FragmentLengthBad(f) && Rebases(s, f);
    if Screened(s, f) != Ok then Result(Rebased(s, f), Screened(s, f), TxEffect(rebase, Resends(s, f), false))
    else
      var r := Accept(Rebased(s, f), f, size);
      r.(effect := r.effect.(rebase := rebase))
  }

  function ProcessHandshake(s: RxState, size: nat): Result
    requires Reassembly.Gapped(s.queue)
  {
    if !Framed(s.record) then Result(s.(record := []), InvalidLength, NOTHING)
    else
      var f := Decode(s.record, 0);
      ProcessFragment(s.(record := s.record[HEADER_LEN + |f.data|..]), f, size)
  }

  /** A ClientHello that a server waits for without having agreed on keys. */
  predicate FirstHello(s: RxState, f: Fragment) {
    f.msgType == 1 && s.entity == Server && s.state == 1 && s.epoch == 0
  }

  /** A sound fragment of the message that is expected, in a record of the right version once the
      ServerHello is through. */
  predicate Expected(s: RxState, f: Fragment) {
    && |f.data| <= f.length && (|f.data| == 0 ==> f.length == 0)
    && (f.msgSeq == s.msgSeq || FirstHello(s, f))
    && (s.state > 6 ==> Negotiated(s))
  }

  /** What becomes of a fragment: an expected one is queued, unless it contradicts the queue or finds no
      room; as soon as the queue holds the whole message, this is handed up, and if it is a ClientHello, a
      HelloVerifyRequest, a ServerHelloDone or a Finished, the own flight has arrived. Any other fragment
      changes neither queue nor data; the beginning of an old ClientHello, ServerHelloDone or Finished, and
      nothing else, makes this side repeat its flight. */
  lemma FragmentOutcome(s: RxState, f: Fragment, size: nat)
    requires Reassembly.QueueInv(s.queue) && f.WireSized() && size - |s.datagram| < 0x100_0000
    ensures var p := ProcessFragment(s, f, size);
      var (next, status, effect) := (p.next, p.status, p.effect);
      var sound := |f.data| <= f.length && (|f.data| == 0 ==> f.length == 0);
      var r := Reassembly.Reassemble(s.queue, f, size - |s.datagram|);
      var whole := Expected(s, f) && r.Queued? && Reassembly.Complete(r.queue[0]);
      && (status == Ok <==> Expected(s, f) && r.Queued?)
      && next.msgSeq == (if whole then (f.msgSeq + 1) % 0x1_0000
                         else if sound && FirstHello(s, f) then f.msgSeq else s.msgSeq)
      && next.queue == (if !Expected(s, f) then s.queue else if whole || r.Rejected? then [] else r.queue)
      && next.pending == (if whole then Encode(r.queue[0]) else s.pending)
      && (effect.rebase <==> sound && FirstHello(s, f))
      && (effect.resend <==>
            sound && !FirstHello(s, f) && f.msgSeq < s.msgSeq && f.msgType in {1, 14, 20} && f.offset == 0)
      && (effect.flightDone <==> whole && f.msgType in {1, 3, 14, 20})
  {
    ScreenedMeans(s, f);
    AcceptMeans(Rebased(s, f), f, size);
    hide Screened, Rebased, Resends, Accept, Expected, FirstHello, Encode, Reassembly.Reassemble, Reassembly.Complete;
  }

  /** The tests in front of the reassembly. */
  lemma ScreenedMeans(s: RxState, f: Fragment)
    ensures var sound := |f.data| <= f.length && (|f.data| == 0 ==> f.length == 0);
      && (Screened(s, f) == Ok <==> Expected(s, f))
      && (!FragmentLengthBad(f) && Rebases(s, f) <==> sound && FirstHello(s, f))
      && Rebased(s, f) == (if sound && FirstHello(s, f) then s.(msgSeq := f.msgSeq) else s)
      && (Resends(s, f) <==>
            sound && !FirstHello(s, f) && f.msgSeq < s.msgSeq && f.msgType in {1, 14, 20} && f.offset == 0)
  {
  }

  /** The reassembly: what is handed up is of the type of the fragment. */
  lemma AcceptMeans(s: RxState, f: Fragment, size: nat)
    requires Reassembly.QueueInv(s.queue) && f.WireSized() && size - |s.datagram| < 0x100_0000
    ensures var a := Accept(s, f, size);
      var (next, status, effect) := (a.next, a.status, a.effect);
      var r := Reassembly.Reassemble(s.queue, f, size - |s.datagram|);
      var whole := r.Queued? && Reassembly.Complete(r.queue[0]);
      && (status == Ok <==> r.Queued?)
      && next.msgSeq == (if whole then (s.msgSeq + 1) % 0x1_0000 else s.msgSeq)
      && next.queue == (if whole || r.Rejected? then [] else r.queue)
      && next.pending == (if whole then Encode(r.queue[0]) else s.pending)
      && !effect.rebase && !effect.resend && (effect.flightDone <==> whole && f.msgType in {1, 3, 14, 20})
  {
    var r := Reassembly.Reassemble(s.queue, f, size - |s.datagram|);
    if r.Queued? {
      Reassembly.ReassembleKeepsInvariant(s.queue, f, size - |s.datagram|);
      assert r.queue[0] in r.queue;
    }
    hide Reassembly.Reassemble, Reassembly.QueueInv, Encode;
  }

  // ----- Other records -----

  /** The state in which a ChangeCipherSpec is expected. */
  function ChangeCipherSpecState(entity: Entity): nat {
    match entity
    case Client => STATE_SERVER_CHANGE_CIPHER_SPEC
    case Server => STATE_CLIENT_CHANGE_CIPHER_SPEC
  }

  function Dropped(s: RxState, status: Status): Result {
    Result(s.(record := []), status, NOTHING)
  }

  /** The record becomes available to the caller as it is; the reassembly queue is flushed. */
  function Deliver(s: RxState, effect: TxEffect): Result {
    Result(s.(pending := s.record, record := [], queue := []), Ok, effect)
  }

  function ProcessOther(s: RxState): Result {
    if s.contentType == TYPE_CHANGE_CIPHER_SPEC then
      if |s.record| < CHANGE_CIPHER_SPEC_LEN then Dropped(s, InvalidLength)
      else if s.state != ChangeCipherSpecState(s.entity) then Dropped(s, UnexpectedMessage)
      else if s.recordVersion != TranslateVersion(s.version) then Result(s, VersionNotSupported, NOTHING)
      else Deliver(s, NOTHING)
    else if s.contentType == TYPE_ALERT then
      if |s.record| < ALERT_LEN then Dropped(s, InvalidLength) else Deliver(s, NOTHING)
    else if s.contentType == TYPE_APPLICATION_DATA then
      var done := NOTHING.(flightDone := true);
      if s.state != STATE_APPLICATION_DATA then Dropped(s, UnexpectedMessage)
      else if s.recordVersion != TranslateVersion(s.version) then Result(s, VersionNotSupported, done)
      else Deliver(s, done)
    else Dropped(s, UnexpectedMessage)
  }

  /** The record is of the version the connection has settled on. */
  predicate Negotiated(s: RxState) {
    s.recordVersion == if s.version == 0x0303 then 0xFEFD else 0xFEFF
  }

  /** An alert of two octets or more; the ChangeCipherSpec that the side waits for; application data once
      the handshake is over. */
  predicate HandsUp(s: RxState) {
    || (s.contentType == 21 && |s.record| >= 2)
    || (s.contentType == 20 && |s.record| >= 1 && s.state == (if s.entity == Client then 23 else 19) && Negotiated(s))
    || (s.contentType == 23 && s.state == 30 && Negotiated(s))
  }

  /** The octets of such a record, and of no other one, are made available; a record that only comes in
      another version is kept, and any other one dropped. Application data at the end of the handshake, in
      whatever version, tells that the own flight has arrived. */
  lemma OtherOutcome(s: RxState)
    requires s.contentType != TYPE_HANDSHAKE
    ensures var p := ProcessOther(s);
      var (next, status, effect) := (p.next, p.status, p.effect);
      && (status == Ok <==> HandsUp(s))
      && next == (if HandsUp(s) then s.(pending := s.record, record := [], queue := [])
                  else if HandsUp(s.(recordVersion := TranslateVersion(s.version))) then s
                  else s.(record := []))
      && !effect.rebase && !effect.resend && (effect.flightDone <==> s.contentType == 23 && s.state == 30)
  {
  }

  /** dtlsProcessRecord */
  function ProcessRecord(s: RxState, size: nat): Result
    requires Reassembly.Gapped(s.queue)
  {
    if s.contentType == TYPE_HANDSHAKE then ProcessHandshake(s, size) else ProcessOther(s)
  }

  // ----- Reading a record from the datagram -----

  /** The 13-octet record header. */
  predicate RecordFramed(d: seq<byte>) {
    |d| >= RECORD_HEADER_LEN && RECORD_HEADER_LEN + Load16(d, 11) <= |d|
  }

  /** The decryption engine: dec sees the header octets in front of the length field, and the
      protected payload. Without cipher and MAC the payload is taken as it stands. */
  datatype Decryptor = Decryptor(isNull: bool, dec: (seq<byte>, seq<byte>) -> Opened)

  /** Decryption never makes a record longer. */
  ghost predicate NeverLengthens(e: Decryptor) {
    forall h, b :: e.dec(h, b).Opened? ==> |e.dec(h, b).plaintext| <= |b|
  }

  /** The record number of the record in front, if there is one. */
  function SeqNum(d: seq<byte>): nat {
    if RecordFramed(d) then Load48(d, 5) else 0
  }

  datatype Opened = Opened(plaintext: seq<byte>) | Forged

  /** dtlsReadRecord, apart from the replay window: unseen says whether the check passed. The
      flag returned says whether the window is updated. */
  function ReadRecord(s: RxState, e: Decryptor, unseen: bool): (RxState, Status, bool)
  {
    if !RecordFramed(s.datagram) then (s.(datagram := []), InvalidLength, false)
    else
      var n := RECORD_HEADER_LEN + Load16(s.datagram, 11);
      var header, body := s.datagram[..11], s.datagram[RECORD_HEADER_LEN..n];
      var s1 := s.(datagram := s.datagram[n..]);
      if Load16(header, 3) != s.epoch then (s1, InvalidEpoch, false)
      else if !unseen then (s1, InvalidSequenceNumber, false)
      else
        var plain := if e.isNull then Opened(body) else e.dec(header, body);
        match plain
        case Forged => (s1, DecryptionFailed, false)
        case Opened(plaintext) =>
          if !e.isNull && |plaintext| > MAX_RECORD_LENGTH then (s1, RecordOverflow, false)
          else
            (s1.(recordVersion := Load16(header, 1), contentType := header[0], record := plaintext), Ok, true)
  }

  /** The octets of the record in front, behind its header. */
  function BodyOf(d: seq<byte>): seq<byte>
    requires RecordFramed(d)
  {
    d[13..13 + Load16(d, 11)]
  }

  /** A whole record of the current epoch, not seen before, that opens to no more than 2^14 octets. */
  predicate Acceptable(d: seq<byte>, epoch: nat, e: Decryptor, unseen: bool) {
    && |d| >= 13 && |d| - 13 >= Load16(d, 11) && Load16(d, 3) == epoch && unseen
    && (e.isNull || (e.dec(d[..11], BodyOf(d)).Opened? && |e.dec(d[..11], BodyOf(d)).plaintext| <= 16384))
  }

  /** Such a record, and no other one, is taken out of the datagram, and its number into the window, with
      content type and version from its header; of any other one, or of what is no record, nothing is left
      but the rest of the datagram behind it. */
  lemma ReadOutcome(s: RxState, e: Decryptor, unseen: bool)
    ensures var (next, status, taken) := ReadRecord(s, e, unseen);
      var d := s.datagram;
      var rest := if RecordFramed(d) then d[13 + Load16(d, 11)..] else [];
      && (taken <==> Acceptable(d, s.epoch, e, unseen)) && (status == Ok <==> taken)
      && next ==
         if taken then
           s.(datagram := rest, contentType := d[0], recordVersion := Load16(d, 1),
              record := if e.isNull then BodyOf(d) else e.dec(d[..11], BodyOf(d)).plaintext)
         else s.(datagram := rest)
  {
    if |s.datagram| >= 13 { HeaderFields(s.datagram); }
    hide Load16;
  }

  lemma HeaderFields(d: seq<byte>)
    requires |d| >= 13
    ensures Load16(d[..11], 1) == Load16(d, 1) && Load16(d[..11], 3) == Load16(d, 3) && d[..11][0] == d[0]
  {
  }
}
