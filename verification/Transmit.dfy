/** The sending half of the DTLS record layer: the flight buffer, the datagram under
    construction behind it, fragmentation, sealing, and the retransmission timer. */
module Transmit {
  import opened Bytes
  import opened Fragments
  import opened ReceiveSpec
  import opened Protection
  import opened FlightSpec
  import opened Packing
  import Reassembly
  import SequenceNumber
  import Retransmission

  datatype TxStatus = Done | NoRoom | EncryptionFailed | SendFailed

  /** What dtlsTick reports: the flight was given up, or nothing but perhaps a send error. */
  datatype TickResult = GivenUp | Going(status: TxStatus)

  /** An encryption engine; the octets of its record sequence number change in place. */
  datatype Engine = Engine(epoch: nat, version: nat, cipher: Cipher, seqNum: array<byte>)

  /** ws is what a run of sealing steps may append: records rs, each sealed by the cipher of its
      epoch. */
  ghost predicate SealedRun(ws: seq<Sealed>, cur: Engine, prev: Engine) {
    forall k :: 0 <= k < |ws| ==>
      SealedBy(ws[k], if ws[k].record.epoch == cur.epoch then cur.cipher else prev.cipher)
  }

  /** The message is stored, unfragmented, at the given place. */
  ghost predicate Holds(s: seq<byte>, at: nat, m: Reassembly.Message) {
    && m.WireSized()
    && at + HEADER_LEN + |m.body| <= |s|
    && s[at..at + HEADER_LEN + |m.body|] == Encode(m.Whole())
  }

  /** The suites of the two epochs. */
  ghost function Suites(cur: Engine, prev: Engine): nat -> Suite {
    (epoch: nat) => if epoch == cur.epoch then cur.cipher.suite else prev.cipher.suite
  }

  /** The octets of a single record that is no handshake record. */
  predicate SingleOther(d: seq<byte>) {
    |d| >= RECORD_HEADER_LEN && d[0] != TYPE_HANDSHAKE && |d| == RECORD_HEADER_LEN + Load16(d, 11)
  }

  /** The record is stored in the flight buffer at the given place. */
  ghost predicate StoredAt(s: seq<byte>, pos: nat, r: Record) {
    && pos + RECORD_HEADER_LEN + |r.payload| <= |s|
    && s[pos..pos + RECORD_HEADER_LEN + |r.payload|] == Buffered(r)
  }

  /** The datagrams from the given one on are not empty and not longer than the bound, except
      for a single record that is no handshake record, which cannot be fragmented. */
  ghost predicate Bounded(sent: seq<seq<byte>>, from: nat, bound: int) {
    forall i :: from <= i < |sent| ==> 0 < |sent[i]| && (|sent[i]| <= bound || SingleOther(sent[i]))
  }

  lemma BoundedOn(start: seq<seq<byte>>, mid: seq<seq<byte>>, end: seq<seq<byte>>, bound: int)
    requires start <= mid && mid <= end
    requires Bounded(mid, |start|, bound) && Bounded(end, |mid|, bound)
    ensures start <= end && Bounded(end, |start|, bound)
  {
    assert end[..|start|] == mid[..|start|];
  }

  class Transmitter {
    const txBuffer: array<byte>
    const txBufferSize: nat
    const entity: Entity
    /** The socket and the cipher library refuse nothing. */
    const faultless: bool
    var state: nat
    var pmtu: nat
    var txBufferLen: nat
    var txBufferPos: nat
    var txDatagramLen: nat
    var encryptionEngine: Engine
    var prevEncryptionEngine: Engine
    var retransmitCount: nat
    var retransmitTimeout: nat
    var retransmitTimestamp: nat
    /** The datagrams the socket has accepted. */
    var sent: seq<seq<byte>>

    /** How far the encryption estimate may fall short. */
    ghost const slack: nat
    /** The records in the flight buffer. */
    ghost var flight: seq<Record>
    /** Every record that has taken a sequence number, in order. */
    ghost var emitted: seq<Sealed>
    /** The records of the datagram under construction, and of the datagrams sent. */
    ghost var packing: seq<Sealed>
    ghost var datagrams: seq<seq<Sealed>>
    /** Where the counters of the two epochs started. */
    ghost var base: nat
    ghost var prevBase: nat

    /** An idle context: nothing buffered, nothing emitted yet. */
    constructor (txBuffer: array<byte>, txBufferSize: nat, ghost slack: nat, entity: Entity, pmtu: nat,
                 cur: Engine, prev: Engine, faultless: bool)
      requires txBufferSize == txBuffer.Length
      requires forall e :: e in {cur, prev} ==>
        && e.seqNum.Length == 6 && e.seqNum != txBuffer && e.epoch < 0x1_0000
        && Lawful(e.cipher) && Slack(e.cipher.suite) <= slack
      requires cur.seqNum != prev.seqNum && cur.epoch != prev.epoch
      ensures Valid() && CanSend()
      ensures this.txBuffer == txBuffer && encryptionEngine == cur && prevEncryptionEngine == prev
      ensures flight == [] && emitted == [] && datagrams == [] && retransmitCount == 0
    {
      this.txBuffer, this.txBufferSize, this.slack := txBuffer, txBufferSize, slack;
      this.entity, this.pmtu := entity, pmtu;
      encryptionEngine, prevEncryptionEngine := cur, prev;
      this.faultless := faultless;
      state, txBufferLen, txBufferPos, txDatagramLen := 0, 0, 0, 0;
      retransmitCount, retransmitTimeout, retransmitTimestamp := 0, Retransmission.INIT_TIMEOUT, 0;
      sent, flight, emitted, packing, datagrams := [], [], [], [], [];
      base, prevBase := SequenceNumber.Value(cur.seqNum), SequenceNumber.Value(prev.seqNum);
      new;
      assert txBuffer[..0] == [];
      assert cur in {cur, prev} && prev in {cur, prev};
    }

    ghost predicate EngineOk(e: Engine) {
      && e.seqNum.Length == 6 && e.seqNum != txBuffer
      && e.epoch < 0x1_0000
      && Lawful(e.cipher) && Slack(e.cipher.suite) <= slack
    }

    ghost predicate BufferValid()
      reads `encryptionEngine, `prevEncryptionEngine, `txBufferLen, `flight, txBuffer
    {
      && EngineOk(encryptionEngine) && EngineOk(prevEncryptionEngine)
      && encryptionEngine.seqNum != prevEncryptionEngine.seqNum
      && encryptionEngine.epoch != prevEncryptionEngine.epoch
      && txBufferLen <= txBufferSize == txBuffer.Length
      && FlightWellFormed(flight)
      && (forall k :: 0 <= k < |flight| ==>
            flight[k].epoch == encryptionEngine.epoch || flight[k].epoch == prevEncryptionEngine.epoch)
      && txBuffer[..txBufferLen] == EncodeFlight(flight)
    }

    /** The counters continue the numbers of the records emitted so far. */
    ghost predicate NumbersValid()
      requires encryptionEngine.seqNum.Length == 6 && prevEncryptionEngine.seqNum.Length == 6
      reads `encryptionEngine, `prevEncryptionEngine, `emitted, `base, `prevBase
      reads encryptionEngine.seqNum, prevEncryptionEngine.seqNum
    {
      && NumberedFrom(emitted, encryptionEngine.epoch, base)
      && NumberedFrom(emitted, prevEncryptionEngine.epoch, prevBase)
      && SequenceNumber.Value(encryptionEngine.seqNum) == Wrap(base + Count(emitted, encryptionEngine.epoch))
      && SequenceNumber.Value(prevEncryptionEngine.seqNum)
         == Wrap(prevBase + Count(emitted, prevEncryptionEngine.epoch))
    }

    ghost predicate LogValid()
      reads `sent, `datagrams
    {
      && |sent| == |datagrams|
      && forall i :: 0 <= i < |sent| ==> sent[i] == Datagram(datagrams[i])
    }

    ghost predicate Valid()
      reads `encryptionEngine, `prevEncryptionEngine, `txBufferLen, `pmtu, `flight, txBuffer
      reads `emitted, `base, `prevBase, encryptionEngine.seqNum, prevEncryptionEngine.seqNum
      reads `sent, `datagrams
    {
      BufferValid() && NumbersValid() && LogValid()
    }

    /** The datagram under construction is stored right behind the flight. */
    ghost predicate Packed()
      reads `txBufferLen, `txDatagramLen, `packing, txBuffer
    {
      && txBufferLen + txDatagramLen <= txBuffer.Length
      && txBuffer[txBufferLen..txBufferLen + txDatagramLen] == Datagram(packing)
    }

    /** The octets in front of a position, which an operation leaves alone. */
    ghost function Front(n: nat): seq<byte>
      requires n <= txBuffer.Length
      reads txBuffer
    {
      txBuffer[..n]
    }

    /** tlsEncryptRecord on the record at pos, in place. The randomness and whether the cipher
        library succeeds are not determined. */
    method EncryptRecord(pos: nat, e: Engine, ghost r: Record, ghost seqNum: nat) returns (ok: bool, ghost w: Sealed)
      requires Lawful(e.cipher) && r.WireSized()
      requires var grown := |r.payload| + Growth(e.cipher.suite, |r.payload|);
        grown < 0x1_0000 && pos + RECORD_HEADER_LEN + grown <= txBuffer.Length
      requires txBuffer[pos..pos + RECORD_HEADER_LEN + |r.payload|] == RecordBytes(r, seqNum, r.payload)
      modifies txBuffer
      ensures Front(pos) == old(Front(pos))
      ensures w.record == r && w.seqNum == seqNum
      ensures ok ==> SealedBy(w, e.cipher) && |w.body| == |r.payload| + Growth(e.cipher.suite, |r.payload|)
      ensures ok ==> txBuffer[pos..pos + |w.Octets()|] == w.Octets()
      ensures ok && e.cipher.suite.Unprotected() ==> txBuffer[..] == old(txBuffer[..])
      ensures faultless || e.cipher.suite.Unprotected() ==> ok
    {
      hide *;
      w := Sealed(r, seqNum, r.payload);
      ok := true;
      PlainSealed(w, e.cipher);
      if !e.cipher.suite.Unprotected() {
        var accepted: bool := *;
        ok := faultless || accepted;
        if ok {
          w := Protect(pos, e, r, seqNum);
        }
      }
    }

    /** The body of the record at pos is replaced by its protected form, and the length field is set. */
    method Protect(pos: nat, e: Engine, ghost r: Record, ghost seqNum: nat) returns (ghost w: Sealed)
      requires Lawful(e.cipher) && r.WireSized() && !e.cipher.suite.Unprotected()
      requires var grown := |r.payload| + Growth(e.cipher.suite, |r.payload|);
        grown < 0x1_0000 && pos + RECORD_HEADER_LEN + grown <= txBuffer.Length
      requires txBuffer[pos..pos + RECORD_HEADER_LEN + |r.payload|] == RecordBytes(r, seqNum, r.payload)
      modifies txBuffer
      ensures Front(pos) == old(Front(pos))
      ensures w.record == r && w.seqNum == seqNum
      ensures SealedBy(w, e.cipher) && |w.body| == |r.payload| + Growth(e.cipher.suite, |r.payload|)
      ensures txBuffer[pos..pos + |w.Octets()|] == w.Octets()
    {
      hide RecordBytes, RecordHeader, Growth, Store16, Load16, Lawful;
      StoredHeader(txBuffer[..], pos, r, seqNum, r.payload);
      StoredParts(txBuffer[..], pos, r, seqNum, r.payload);
      var n := Load16(txBuffer[..], pos + 11);
      var header := txBuffer[pos..pos + 11];
      var plaintext := txBuffer[pos + RECORD_HEADER_LEN..pos + RECORD_HEADER_LEN + n];
      var nonce: nat := *;
      var body := e.cipher.enc(header, nonce, plaintext);
      SealLaw(e.cipher, header, nonce, plaintext);
      w := Sealed(r, seqNum, body);
      ghost var before := txBuffer[..];
      Write(txBuffer, pos + 11, Store16(|body|) + body);
      ReplacedBody(before, txBuffer[..], pos, r, seqNum, r.payload, body);
    }

    /** The record takes the next number of its engine. */
    method TakeNumber(e: Engine, ghost w: Sealed)
      requires EngineOk(encryptionEngine) && EngineOk(prevEncryptionEngine) && NumbersValid()
      requires encryptionEngine.seqNum != prevEncryptionEngine.seqNum
      requires encryptionEngine.epoch != prevEncryptionEngine.epoch
      requires e == encryptionEngine || e == prevEncryptionEngine
      requires w.record.epoch == e.epoch && w.seqNum == SequenceNumber.Value(e.seqNum)
      modifies `emitted, e.seqNum
      ensures NumbersValid()
      ensures emitted == old(emitted) + [w]
    {
      hide NumberedFrom, Count, Wrap;
      WrapNext(base + Count(emitted, encryptionEngine.epoch));
      WrapNext(prevBase + Count(emitted, prevEncryptionEngine.epoch));
      CountSnoc(emitted, w, encryptionEngine.epoch);
      CountSnoc(emitted, w, prevEncryptionEngine.epoch);
      NumberedSnoc(emitted, w, encryptionEngine.epoch, base);
      NumberedSnoc(emitted, w, prevEncryptionEngine.epoch, prevBase);
      SequenceNumber.Increment(e.seqNum);
      emitted := emitted + [w];
    }

    /** What has been packed so far, datagrams sent and datagram under construction alike. */
    ghost function Out(): seq<Sealed>
      reads `datagrams, `packing
    {
      Flatten(datagrams) + packing
    }

    /** The record just formatted behind the datagram under construction is protected, takes
        its number and becomes part of the datagram. */
    method SealAtEnd(e: Engine, ghost r: Record) returns (ok: bool, ghost w: Sealed)
      requires Valid() && Packed()
      requires e == encryptionEngine || e == prevEncryptionEngine
      requires r.WireSized() && r.epoch == e.epoch
      requires var grown := |r.payload| + Growth(e.cipher.suite, |r.payload|);
        grown < 0x1_0000 && txBufferLen + txDatagramLen + RECORD_HEADER_LEN + grown <= txBuffer.Length
      requires var pos := txBufferLen + txDatagramLen;
        txBuffer[pos..pos + RECORD_HEADER_LEN + |r.payload|]
        == RecordBytes(r, SequenceNumber.Value(e.seqNum), r.payload)
      modifies `txDatagramLen, `packing, `emitted, txBuffer, e.seqNum
      ensures Valid() && Packed()
      ensures Front(txBufferLen) == old(Front(txBufferLen))
      ensures w.record == r && (ok ==> SealedBy(w, e.cipher))
      ensures ok ==> packing == old(packing) + [w] && emitted == old(emitted) + [w]
      ensures ok ==> |w.body| == |r.payload| + Growth(e.cipher.suite, |r.payload|)
      ensures ok ==> txDatagramLen == old(txDatagramLen) + RECORD_HEADER_LEN + |w.body|
      ensures ok ==> var pos := txBufferLen + old(txDatagramLen); txBuffer[pos..pos + |w.Octets()|] == w.Octets()
      ensures !ok ==>
        packing == old(packing) && emitted == old(emitted) && txDatagramLen == old(txDatagramLen)
      ensures faultless ==> ok
    {
      hide NumberedFrom, Count, EncodeFlight, FlightWellFormed, SealedBy, Growth, RecordBytes, RecordHeader, Datagram,
           Wrap, SequenceNumber.Value, Slack, Sealed.Octets;
      ok, w := EncryptAtEnd(e, r);
      if ok {
        TakeNumber(e, w);
        ExtendDatagram(w);
      }
    }

    /** Protection behind the datagram under construction leaves flight and datagram alone. */
    method EncryptAtEnd(e: Engine, ghost r: Record) returns (ok: bool, ghost w: Sealed)
      requires Valid() && Packed()
      requires e == encryptionEngine || e == prevEncryptionEngine
      requires r.WireSized() && r.epoch == e.epoch
      requires var grown := |r.payload| + Growth(e.cipher.suite, |r.payload|);
        grown < 0x1_0000 && txBufferLen + txDatagramLen + RECORD_HEADER_LEN + grown <= txBuffer.Length
      requires var pos := txBufferLen + txDatagramLen;
        txBuffer[pos..pos + RECORD_HEADER_LEN + |r.payload|]
        == RecordBytes(r, SequenceNumber.Value(e.seqNum), r.payload)
      modifies txBuffer
      ensures Valid() && Packed() && Front(txBufferLen) == old(Front(txBufferLen))
      ensures w.record == r && w.seqNum == SequenceNumber.Value(e.seqNum) && (faultless ==> ok)
      ensures ok ==> SealedBy(w, e.cipher) && |w.body| == |r.payload| + Growth(e.cipher.suite, |r.payload|)
      ensures ok ==> var pos := txBufferLen + txDatagramLen; txBuffer[pos..pos + |w.Octets()|] == w.Octets()
    {
      hide NumberedFrom, Count, EncodeFlight, FlightWellFormed, SealedBy, Growth, RecordBytes, RecordHeader, Datagram,
           Wrap, SequenceNumber.Value, Slack, Sealed.Octets;
      var pos := txBufferLen + txDatagramLen;
      ghost var before := txBuffer[..];
      ok, w := EncryptRecord(pos, e, r, SequenceNumber.Value(e.seqNum));
      PrefixKept(before, txBuffer[..], txBufferLen, pos);
      assert txBuffer[txBufferLen..pos] == before[txBufferLen..pos];
    }

    /** The datagram grows by the record behind it, as long as its length field says. */
    method ExtendDatagram(ghost w: Sealed)
      requires txBufferLen + txDatagramLen + |w.Octets()| <= txBuffer.Length
      requires w.record.WireSized() && |w.body| < 0x1_0000
      requires Packed()
      requires var pos := txBufferLen + txDatagramLen; txBuffer[pos..pos + |w.Octets()|] == w.Octets()
      modifies `txDatagramLen, `packing
      ensures Packed()
      ensures packing == old(packing) + [w]
      ensures txDatagramLen == old(txDatagramLen) + RECORD_HEADER_LEN + |w.body|
    {
      hide *;
      var pos := txBufferLen + txDatagramLen;
      ghost var s := txBuffer[..];
      StoredSealed(s, pos, w);
      var n := Load16(txBuffer[..], pos + 11);
      PackedGrows(s, w);
      packing := packing + [w];
      txDatagramLen := txDatagramLen + n + RECORD_HEADER_LEN;
      NowPacked(s);
    }

    lemma PackedGrows(s: seq<byte>, w: Sealed)
      requires Packed() && s == txBuffer[..]
      requires var pos := txBufferLen + txDatagramLen;
        pos + |w.Octets()| <= |s| && s[pos..pos + |w.Octets()|] == w.Octets()
      ensures s[txBufferLen..txBufferLen + txDatagramLen + |w.Octets()|] == Datagram(packing + [w])
    {
      hide Datagram, Sealed.Octets;
      DatagramGrows(s, txBufferLen, txBufferLen + txDatagramLen, packing, w);
    }

    lemma NowPacked(s: seq<byte>)
      requires s == txBuffer[..] && txBufferLen + txDatagramLen <= |s|
      requires s[txBufferLen..txBufferLen + txDatagramLen] == Datagram(packing)
      ensures Packed()
    {
    }

    /** Hands the datagram under construction to the socket, which may refuse it. */
    method SendDatagram() returns (ok: bool)
      requires LogValid() && Packed()
      modifies `txDatagramLen, `packing, `datagrams, `sent
      ensures LogValid() && Packed()
      ensures Out() == old(Out())
      ensures ok ==> packing == [] && txDatagramLen == 0
      ensures ok ==> datagrams == old(datagrams) + [old(packing)]
      ensures ok ==> sent == old(sent) + [old(txBuffer[txBufferLen..txBufferLen + txDatagramLen])]
      ensures !ok ==> packing == old(packing) && txDatagramLen == old(txDatagramLen)
      ensures !ok ==> datagrams == old(datagrams) && sent == old(sent)
      ensures faultless ==> ok
    {
      var accepted: bool := *;
      ok := faultless || accepted;
      if ok {
        sent := sent + [txBuffer[txBufferLen..txBufferLen + txDatagramLen]];
        datagrams := datagrams + [packing];
        assert datagrams[..|datagrams| - 1] == old(datagrams);
        packing := [];
        txDatagramLen := 0;
      }
    }

    /** The PMTU in force: the configured one, or what is left of the buffer. */
    ghost function Pmtu(): int
      reads `pmtu, `txBufferLen
    {
      PmtuBehind(txBufferLen)
    }

    ghost function PmtuBehind(flightLen: nat): int
      reads `pmtu
    {
      if pmtu < txBufferSize - flightLen then pmtu else txBufferSize - flightLen
    }

    /** The datagram under construction keeps the same bound. */
    ghost predicate PackingBounded()
      reads `txDatagramLen, `packing, `pmtu, `txBufferLen
    {
      && (txDatagramLen <= Pmtu() + slack || SingleOther(Datagram(packing)))
      && (txDatagramLen > 0 <==> packing != [])
    }

    /** The state between two steps of sending a flight. */
    ghost predicate Sending()
      reads `encryptionEngine, `prevEncryptionEngine, `txBufferLen, `pmtu, `flight, txBuffer
      reads `emitted, `base, `prevBase, encryptionEngine.seqNum, prevEncryptionEngine.seqNum
      reads `sent, `datagrams, `txDatagramLen, `packing
    {
      Valid() && Packed() && PackingBounded()
    }

    /** Writes the record and fragment headers at pos and copies the octets of the message. */
    method FormatFragment(pos: nat, version: nat, e: Engine, at: nat, total: nat, fragOffset: nat, fragLength: nat,
                          ghost m: Reassembly.Message, ghost f: Fragment)
      requires e.seqNum.Length == 6 && e.seqNum != txBuffer
      requires m.WireSized() && total == |m.body|
      requires at + HEADER_LEN + total <= pos <= txBuffer.Length
      requires txBuffer[at..at + HEADER_LEN + total] == Encode(m.Whole())
      requires fragOffset + fragLength <= total
      requires f == Fragment(m.msgType, total, m.msgSeq, fragOffset, m.body[fragOffset..fragOffset + fragLength])
      requires pos + RECORD_HEADER_LEN + HEADER_LEN + fragLength <= txBuffer.Length
      modifies txBuffer
      ensures Front(pos) == old(Front(pos))
      ensures var r := Record(TYPE_HANDSHAKE, version, e.epoch, Encode(f));
        txBuffer[pos..pos + RECORD_HEADER_LEN + |r.payload|]
        == RecordBytes(r, SequenceNumber.Value(e.seqNum), r.payload)
    {
      hide Store16, Store24, Header, Encode, RecordBytes, SequenceNumber.Value, Moved, Overwritten;
      ghost var before := txBuffer[..];
      var header := [TYPE_HANDSHAKE] + Store16(version) + Store16(e.epoch) + e.seqNum[..]
                    + Store16(HEADER_LEN + fragLength);
      var fragHeader := [txBuffer[at]] + Store24(total) + txBuffer[at + 4..at + 6]
                        + Store24(fragOffset) + Store24(fragLength);
      FragmentOctets(before, at, m, f, fragHeader);
      Write(txBuffer, pos, header + fragHeader);
      ghost var written := txBuffer[..];
      var source := at + HEADER_LEN + fragOffset;
      Memcpy(txBuffer, pos + RECORD_HEADER_LEN + HEADER_LEN, source, fragLength);
      BodySlice(before, at, m, fragOffset, fragLength);
      FormattedOctets(before, written, txBuffer[..], pos, header, fragHeader, source, f.data);
      HeadersJoin(version, e, f, header, fragHeader);
    }

    lemma HeadersJoin(version: nat, e: Engine, f: Fragment, header: seq<byte>, fragHeader: seq<byte>)
      requires e.seqNum.Length == 6 && fragHeader == Header(f)
      requires header == [TYPE_HANDSHAKE] + Store16(version) + Store16(e.epoch) + e.seqNum[..]
                         + Store16(HEADER_LEN + |f.data|)
      ensures header + (fragHeader + f.data)
        == RecordBytes(Record(TYPE_HANDSHAKE, version, e.epoch, Encode(f)), SequenceNumber.Value(e.seqNum), Encode(f))
    {
      NumberOctets(e.seqNum[..]);
      hide Store16, Header, Store48, Load48;
      assert RecordHeader(Record(TYPE_HANDSHAKE, version, e.epoch, Encode(f)), SequenceNumber.Value(e.seqNum))
        == [TYPE_HANDSHAKE] + Store16(version) + Store16(e.epoch) + e.seqNum[..];
    }

    /** The payload size of fragments: what the PMTU leaves after headers and estimate. */
    ghost function MaxFragSize(e: Engine): int
      requires e.cipher.suite.WellFormed()
      reads `pmtu, `txBufferLen
    {
      Pmtu() - (RECORD_HEADER_LEN + HEADER_LEN + Overhead(e.cipher.suite, 0))
    }

    /** Records may not span datagrams: a datagram under construction goes out first when the
        estimate n for the next record does not fit. */
    method MakeRoom(n: nat, limit: nat, ghost st: Start, ghost ws: seq<Sealed>) returns (ok: bool)
      requires Since(st, ws) && limit == Pmtu()
      modifies `txDatagramLen, `packing, `datagrams, `sent
      ensures Since(st, ws)
      ensures ok ==> txDatagramLen == Joined(old(txDatagramLen), n, limit)
      ensures faultless ==> ok
    {
      hide Datagram, Flatten, NumberedFrom, Count, EncodeFlight, FlightWellFormed;
      ok := true;
      if txDatagramLen > 0 {
        if txDatagramLen + n > limit {
          ghost var before := sent;
          ok := SendDatagram();
          assert st.sent <= sent && Bounded(sent, |st.sent|, Pmtu() + slack) by {
            if ok { BoundedOn(st.sent, before, sent, Pmtu() + slack); }
          }
        }
      }
    }

    /** Seals the record that stands behind the datagram under construction. */
    method SealNext(e: Engine, ghost r: Record, ghost st: Start, ghost ws: seq<Sealed>)
      returns (ok: bool, ghost w: Sealed)
      requires Since(st, ws)
      requires e == encryptionEngine || e == prevEncryptionEngine
      requires r.WireSized() && r.epoch == e.epoch && e.cipher.suite.WellFormed()
      requires SealedFits(e, r) && StandsBehind(r, e)
      modifies `txDatagramLen, `packing, `emitted, txBuffer, e.seqNum
      ensures Since(st, if ok then ws + [w] else ws)
      ensures w.record == r && (ok ==> SealedBy(w, e.cipher) && txDatagramLen > 0)
      ensures ok ==> |w.body| == |r.payload| + Growth(e.cipher.suite, |r.payload|)
      ensures ok ==> txDatagramLen == old(txDatagramLen) + SealedLen(e.cipher.suite, |r.payload|)
      ensures ok ==> LengthAt(txBufferLen + old(txDatagramLen), |w.body|)
      ensures faultless ==> ok
    {
      hide *;
      SinceParts(st, ws);
      SealRoom(e, r);
      ghost var was, len := packing, txDatagramLen;
      ok, w := SealAtEnd(e, r);
      if ok {
        LengthStands(txBufferLen + len, w);
        SealedLength(e, r);
        SinceGrown(st, ws, w, was, len);
      } else {
        SinceAgain(st, ws);
      }
    }

    lemma SealedLength(e: Engine, r: Record)
      requires e.cipher.suite.WellFormed()
      ensures SealedLen(e.cipher.suite, |r.payload|)
        == RECORD_HEADER_LEN + (|r.payload| + Growth(e.cipher.suite, |r.payload|))
    {
    }

    lemma SealRoom(e: Engine, r: Record)
      requires Valid() && Packed() && (e == encryptionEngine || e == prevEncryptionEngine)
      requires e.cipher.suite.WellFormed() && SealedFits(e, r) && StandsBehind(r, e)
      ensures var grown, pos := |r.payload| + Growth(e.cipher.suite, |r.payload|), txBufferLen + txDatagramLen;
        && grown < 0x1_0000 && pos + RECORD_HEADER_LEN + grown <= txBuffer.Length
        && txBuffer[pos..pos + RECORD_HEADER_LEN + |r.payload|]
           == RecordBytes(r, SequenceNumber.Value(e.seqNum), r.payload)
        && (txDatagramLen + RECORD_HEADER_LEN + grown <= Pmtu() + slack
            || (txDatagramLen == 0 && r.contentType != TYPE_HANDSHAKE))
    {
      hide RecordBytes, Growth, SequenceNumber.Value, Valid, Packed;
    }

    lemma LengthStands(pos: nat, w: Sealed)
      requires w.record.WireSized() && |w.body| < 0x1_0000 && pos + |w.Octets()| <= txBuffer.Length
      requires txBuffer[pos..pos + |w.Octets()|] == w.Octets()
      ensures LengthAt(pos, |w.body|)
    {
      StoredSealed(txBuffer[..], pos, w);
    }

    lemma SinceParts(st: Start, ws: seq<Sealed>)
      requires Since(st, ws)
      ensures Valid() && Packed() && PackingBounded() && txBufferLen <= txBuffer.Length
      ensures Front(txBufferLen) == st.front
      ensures st.sent <= sent && Bounded(sent, |st.sent|, Pmtu() + slack)
      ensures emitted == st.emitted + ws && Flatten(datagrams) + packing == st.out + ws
      ensures txDatagramLen > 0 <==> packing != []
    {
    }

    lemma SinceAgain(st: Start, ws: seq<Sealed>)
      requires Valid() && Packed() && PackingBounded() && txBufferLen <= txBuffer.Length
      requires Front(txBufferLen) == st.front
      requires st.sent <= sent && Bounded(sent, |st.sent|, Pmtu() + slack)
      requires emitted == st.emitted + ws && Flatten(datagrams) + packing == st.out + ws
      ensures Since(st, ws)
    {
    }

    /** One more record in the datagram under construction. */
    lemma SinceGrown(st: Start, ws: seq<Sealed>, w: Sealed, was: seq<Sealed>, len: nat)
      requires Valid() && Packed() && packing == was + [w] && txDatagramLen == len + RECORD_HEADER_LEN + |w.body|
      requires (len > 0 <==> was != []) && w.record.WireSized() && |w.body| < 0x1_0000
      requires txDatagramLen <= Pmtu() + slack || (len == 0 && w.record.contentType != TYPE_HANDSHAKE)
      requires txBufferLen <= txBuffer.Length && Front(txBufferLen) == st.front
      requires st.sent <= sent && Bounded(sent, |st.sent|, Pmtu() + slack)
      requires emitted == (st.emitted + ws) + [w] && Flatten(datagrams) + was == st.out + ws
      ensures Since(st, ws + [w]) && txDatagramLen > 0
    {
      hide Valid, Packed, Bounded, Datagram, SingleOther, Flatten;
      SnocAssociates(st, ws, w);
      SingleSealed(w);
      assert len == 0 ==> packing == [w];
      assert Flatten(datagrams) + packing == (Flatten(datagrams) + was) + [w];
    }

    /** The length field of a record at the given place. */
    ghost predicate LengthAt(pos: nat, length: nat)
      reads txBuffer
    {
      pos + 13 <= txBuffer.Length && Load16(txBuffer[..], pos + 11) == length
    }

    /** The sealed record has room behind the datagram under construction, which stays within the
        bound unless the record is alone in it and no handshake record. */
    ghost predicate SealedFits(e: Engine, r: Record)
      requires e.cipher.suite.WellFormed()
      reads `pmtu, `txBufferLen, `txDatagramLen
    {
      var grown := |r.payload| + Growth(e.cipher.suite, |r.payload|);
      && grown < 0x1_0000 && txBufferLen + txDatagramLen + RECORD_HEADER_LEN + grown <= txBuffer.Length
      && (txDatagramLen + RECORD_HEADER_LEN + grown <= Pmtu() + slack
          || (txDatagramLen == 0 && r.contentType != TYPE_HANDSHAKE))
    }

    /** The octets behind the datagram under construction are the record in plaintext, with the
        number its engine is about to give out. */
    ghost predicate StandsBehind(r: Record, e: Engine)
      requires e.seqNum.Length == 6
      reads `txBufferLen, `txDatagramLen, txBuffer, e.seqNum
    {
      var pos := txBufferLen + txDatagramLen;
      && pos + RECORD_HEADER_LEN + |r.payload| <= txBuffer.Length
      && txBuffer[pos..pos + RECORD_HEADER_LEN + |r.payload|]
         == RecordBytes(r, SequenceNumber.Value(e.seqNum), r.payload)
    }

    /** Formats the fragment behind the datagram under construction. */
    method FormatNext(version: nat, e: Engine, at: nat, total: nat, fragOffset: nat, fragLength: nat,
                      ghost m: Reassembly.Message, ghost f: Fragment, ghost st: Start, ghost ws: seq<Sealed>)
      requires Since(st, ws)
      requires e == encryptionEngine || e == prevEncryptionEngine
      requires total == |m.body| && Holds(st.front, at, m)
      requires fragOffset + fragLength <= total
      requires f == Fragment(m.msgType, total, m.msgSeq, fragOffset, m.body[fragOffset..fragOffset + fragLength])
      requires txBufferLen + txDatagramLen + RECORD_HEADER_LEN + HEADER_LEN + fragLength <= txBuffer.Length
      modifies txBuffer
      ensures Since(st, ws)
      ensures StandsBehind(Record(TYPE_HANDSHAKE, version, e.epoch, Encode(f)), e)
    {
      hide NumberedFrom, Count, EncodeFlight, FlightWellFormed, Encode, RecordBytes, Datagram, Growth, SealedBy,
           Flatten;
      var pos := txBufferLen + txDatagramLen;
      ghost var before := txBuffer[..];
      SubSlice(before, 0, txBufferLen, at, at + HEADER_LEN + total);
      FormatFragment(pos, version, e, at, total, fragOffset, fragLength, m, f);
      PrefixKept(before, txBuffer[..], txBufferLen, pos);
    }

    /** A fragment of the permitted size that is clear has room, and exceeds neither the PMTU nor the
        estimate by more than the slack. */
    lemma FragmentSeals(e: Engine, fragLength: nat, r: Record, len: nat, st: Start, ws: seq<Sealed>)
      requires Since(st, ws) && (e == encryptionEngine || e == prevEncryptionEngine)
      requires e.cipher.suite.WellFormed() && fragLength <= MaxFragSize(e)
      requires |r.payload| == HEADER_LEN + fragLength && r.version < 0x1_0000 && r.epoch == e.epoch
      requires txDatagramLen == Joined(len, Estimate(e.cipher.suite, |r.payload|), Pmtu())
      requires SealClear(txDatagramLen, e.cipher.suite, |r.payload|, txBufferSize - txBufferLen)
      ensures r.WireSized() && SealedFits(e, r)
      ensures txBufferLen + txDatagramLen + RECORD_HEADER_LEN + HEADER_LEN + fragLength <= txBuffer.Length
    {
      assert EngineOk(e);
      hide Growth, Overhead, NumbersValid, LogValid, Packed;
      GrowthBounded(e.cipher.suite, |r.payload|, 0);
      GrowthBounded(e.cipher.suite, |r.payload|, RECORD_HEADER_LEN + |r.payload|);
    }

    /** One round of the fragmentation loop. */
    method EmitFragment(version: nat, e: Engine, at: nat, total: nat, fragOffset: nat, fragLength: nat, limit: nat,
                        ghost m: Reassembly.Message, ghost f: Fragment, ghost st: Start, ghost ws: seq<Sealed>)
      returns (status: TxStatus, ghost w: Sealed)
      requires Since(st, ws) && limit == Pmtu()
      requires e == encryptionEngine || e == prevEncryptionEngine
      requires version < 0x1_0000 && total == |m.body|
      requires Holds(st.front, at, m)
      requires e.cipher.suite.WellFormed()
      requires fragOffset + fragLength <= total && fragLength <= MaxFragSize(e)
      requires f == Fragment(m.msgType, total, m.msgSeq, fragOffset, m.body[fragOffset..fragOffset + fragLength])
      requires SealClear(Joined(txDatagramLen, Estimate(e.cipher.suite, |Encode(f)|), limit), e.cipher.suite,
                         |Encode(f)|, txBufferSize - txBufferLen)
      modifies `txDatagramLen, `packing, `emitted, `datagrams, `sent, txBuffer, e.seqNum
      ensures Since(st, if status == Done then ws + [w] else ws)
      ensures status == Done ==>
        txDatagramLen == Joined(old(txDatagramLen), Estimate(e.cipher.suite, |Encode(f)|), limit)
                         + SealedLen(e.cipher.suite, |Encode(f)|)
      ensures status == Done || (!faultless && (status == EncryptionFailed || status == SendFailed))
      ensures status == Done ==> w.record == Record(TYPE_HANDSHAKE, version, e.epoch, Encode(f))
      ensures status == Done ==> SealedBy(w, e.cipher) && txDatagramLen > 0
    {
      hide *;
      ghost var r := Record(TYPE_HANDSHAKE, version, e.epoch, Encode(f));
      w := Sealed(r, 0, []);
      var n := fragLength + RECORD_HEADER_LEN + HEADER_LEN;
      var estimate := n + Overhead(e.cipher.suite, n);
      OtherSizes(e, HEADER_LEN + fragLength);
      ghost var len := txDatagramLen;
      var ok := MakeRoom(estimate, limit, st, ws);
      if !ok {
        status := SendFailed;
      } else {
        FragmentSeals(e, fragLength, r, len, st, ws);
        FormatNext(version, e, at, total, fragOffset, fragLength, m, f, st, ws);
        FragmentSeals(e, fragLength, r, len, st, ws);
        ok, w := SealNext(e, r, st, ws);
        status := if ok then Done else EncryptionFailed;
      }
    }

    /** dtlsFragmentHandshakeMessage: the message stored at the given place of the flight goes
        out as the records of its cuts, in order, packed into datagrams. */
    method FragmentHandshakeMessage(version: nat, e: Engine, at: nat, ghost m: Reassembly.Message, ghost st: Start)
      returns (status: TxStatus, ghost ws: seq<Sealed>)
      requires e == encryptionEngine || e == prevEncryptionEngine
      requires version < 0x1_0000 && Holds(st.front, at, m) && e.cipher.suite.WellFormed()
      requires Since(st, []) && MessageClear(e, m)
      modifies `txDatagramLen, `packing, `emitted, `datagrams, `sent, txBuffer, e.seqNum
      ensures Since(st, ws)
      ensures status == NoRoom <==> (Pmtu() < MIN_PMTU || MaxFragSize(e) <= 0)
      ensures faultless ==> status == Done || status == NoRoom
      ensures CutInto(ws, version, e, m)
      ensures status == Done ==> txDatagramLen > 0
      ensures status == Done ==> Plain(ws) == FragmentRecords(version, e.epoch, Cuts(m, MaxFragSize(e)))
      ensures status == Done ==>
        txDatagramLen == CutsPacked(old(txDatagramLen), e.cipher.suite, Cuts(m, MaxFragSize(e)), Pmtu())
    {
      hide *;
      ws := [];
      NothingCut(version, e, m);
      var limit, maxFragSize, total := Limits(e, at, m, st);
      if maxFragSize <= 0 || limit < MIN_PMTU {
        status := NoRoom;
        return;
      }
      TracksStart(st, version, e, m, maxFragSize);
      PacksStart(e, m, maxFragSize);
      ghost var cuts, offset;
      ghost var target := CutsPacked(txDatagramLen, e.cipher.suite, Cuts(m, MaxFragSize(e)), Pmtu());
      status, ws, cuts, offset := FragmentLoop(version, e, at, total, maxFragSize, limit, m, st, target);
      TracksMeans(st, ws, cuts, version, e, m, maxFragSize, offset, status != Done);
      NowCut(ws, version, e, m);
    }

    /** Every fragment of the message fits when it is protected, if the PMTU admits any. */
    ghost predicate MessageClear(e: Engine, m: Reassembly.Message)
      requires e.cipher.suite.WellFormed()
      reads `pmtu, `txBufferLen, `txDatagramLen
    {
      MaxFragSize(e) > 0 ==>
        CutsClear(txDatagramLen, e.cipher.suite, Cuts(m, MaxFragSize(e)), Pmtu(), txBufferSize - txBufferLen)
    }

    /** The fragments still to come fit, and will bring the datagram under construction to the
        given length. */
    ghost predicate Packs(e: Engine, m: Reassembly.Message, size: nat, offset: nat, more: bool, target: nat)
      requires e.cipher.suite.WellFormed() && size > 0 && offset <= |m.body|
      reads `pmtu, `txBufferLen, `txDatagramLen
    {
      var fs := if more then CutsFrom(m, size, offset) else [];
      && CutsClear(txDatagramLen, e.cipher.suite, fs, Pmtu(), txBufferSize - txBufferLen)
      && CutsPacked(txDatagramLen, e.cipher.suite, fs, Pmtu()) == target
    }

    lemma PacksStart(e: Engine, m: Reassembly.Message, size: nat)
      requires e.cipher.suite.WellFormed() && 0 < size == MaxFragSize(e) && MessageClear(e, m)
      ensures Packs(e, m, size, 0, true, CutsPacked(txDatagramLen, e.cipher.suite, Cuts(m, size), Pmtu()))
    {
    }

    /** The fragment to come, and what remains behind it. */
    lemma PacksNext(e: Engine, m: Reassembly.Message, size: nat, offset: nat, target: nat)
      requires e.cipher.suite.WellFormed() && size > 0 && offset <= |m.body| && Packs(e, m, size, offset, true, target)
      ensures var n := |Encode(Cut(m, offset, size))|;
        var j := Joined(txDatagramLen, Estimate(e.cipher.suite, n), Pmtu());
        && SealClear(j, e.cipher.suite, n, txBufferSize - txBufferLen)
        && CutsClear(j + SealedLen(e.cipher.suite, n), e.cipher.suite, CutsBehind(m, size, offset), Pmtu(),
                     txBufferSize - txBufferLen)
        && CutsPacked(j + SealedLen(e.cipher.suite, n), e.cipher.suite, CutsBehind(m, size, offset), Pmtu()) == target
    {
      hide CutsClear, CutsPacked, CutsBehind, CutsFrom, Cut, Encode, SealClear, SealedLen, Joined, Estimate;
      CutsStep(txDatagramLen, e.cipher.suite, m, size, offset, Pmtu(), txBufferSize - txBufferLen);
    }

    lemma PacksOn(e: Engine, m: Reassembly.Message, size: nat, offset: nat, len: nat, target: nat)
      requires e.cipher.suite.WellFormed() && size > 0 && offset <= |m.body|
      requires len == if |m.body| - offset < size then |m.body| - offset else size
      requires CutsClear(txDatagramLen, e.cipher.suite, CutsBehind(m, size, offset), Pmtu(), txBufferSize - txBufferLen)
      requires CutsPacked(txDatagramLen, e.cipher.suite, CutsBehind(m, size, offset), Pmtu()) == target
      ensures Packs(e, m, size, offset + len, offset + len < |m.body|, target)
    {
    }

    lemma PacksMeans(e: Engine, m: Reassembly.Message, size: nat, offset: nat, target: nat)
      requires e.cipher.suite.WellFormed() && size > 0 && offset <= |m.body| && Packs(e, m, size, offset, false, target)
      ensures txDatagramLen == target
    {
    }

    /** The records are the first ones that the message is cut into, sealed. */
    ghost predicate CutInto(ws: seq<Sealed>, version: nat, e: Engine, m: Reassembly.Message)
      requires e.cipher.suite.WellFormed()
      reads `pmtu, `txBufferLen
    {
      && AllSealedBy(ws, e.cipher)
      && if MaxFragSize(e) <= 0 then ws == []
         else Plain(ws) <= FragmentRecords(version, e.epoch, Cuts(m, MaxFragSize(e)))
    }

    lemma NothingCut(version: nat, e: Engine, m: Reassembly.Message)
      requires e.cipher.suite.WellFormed()
      ensures CutInto([], version, e, m)
    {
    }

    lemma NowCut(ws: seq<Sealed>, version: nat, e: Engine, m: Reassembly.Message)
      requires e.cipher.suite.WellFormed() && MaxFragSize(e) > 0 && AllSealedBy(ws, e.cipher)
      requires Plain(ws) <= FragmentRecords(version, e.epoch, Cuts(m, MaxFragSize(e)))
      ensures CutInto(ws, version, e, m)
    {
    }

    /** The PMTU in force, what it leaves for a fragment, and the length of the stored message. */
    method Limits(e: Engine, at: nat, ghost m: Reassembly.Message, ghost st: Start)
      returns (limit: int, maxFragSize: int, total: nat)
      requires Since(st, []) && Holds(st.front, at, m) && e.cipher.suite.WellFormed()
      ensures limit == Pmtu() && maxFragSize == MaxFragSize(e) && total == |m.body|
      ensures Since(st, [])
    {
      limit := if pmtu < txBufferSize - txBufferLen then pmtu else txBufferSize - txBufferLen;
      maxFragSize := limit - (RECORD_HEADER_LEN + HEADER_LEN + Overhead(e.cipher.suite, 0));
      SubSlice(txBuffer[..], 0, txBufferLen, at, at + HEADER_LEN + |m.body|);
      MessageOctets(txBuffer[..], at, m);
      total := Load24(txBuffer[..], at + 1);
    }

    /** What has happened since the start: the front of the buffer is as it was, the datagrams
        sent keep the bound, and ws are the records emitted and packed. */
    ghost predicate Since(st: Start, ws: seq<Sealed>)
      reads `encryptionEngine, `prevEncryptionEngine, `txBufferLen, `pmtu, `flight, txBuffer
      reads `emitted, `base, `prevBase, encryptionEngine.seqNum, prevEncryptionEngine.seqNum
      reads `sent, `datagrams, `txDatagramLen, `packing
    {
      && Sending() && Front(txBufferLen) == st.front
      && st.sent <= sent && Bounded(sent, |st.sent|, Pmtu() + slack)
      && emitted == st.emitted + ws && Out() == st.out + ws
    }

    /** The do loop: it runs once for an empty message. */
    method FragmentLoop(version: nat, e: Engine, at: nat, totalLength: nat, size: nat, limit: nat,
                        ghost m: Reassembly.Message, ghost st: Start, ghost target: nat)
      returns (status: TxStatus, ghost ws: seq<Sealed>, ghost cuts: seq<Fragment>, ghost offset: nat)
      requires e == encryptionEngine || e == prevEncryptionEngine
      requires limit == Pmtu() && version < 0x1_0000 && totalLength == |m.body|
      requires Holds(st.front, at, m)
      requires e.cipher.suite.WellFormed() && 0 < size == MaxFragSize(e)
      requires Tracks(st, [], [], version, e, m, size, 0, true) && Packs(e, m, size, 0, true, target)
      modifies `txDatagramLen, `packing, `emitted, `datagrams, `sent, txBuffer, e.seqNum
      ensures offset <= totalLength
      ensures Tracks(st, ws, cuts, version, e, m, size, offset, status != Done)
      ensures status == Done ==> 0 < txDatagramLen == target
      ensures status == Done || (!faultless && (status == EncryptionFailed || status == SendFailed))
    {
      hide *;
      var fragOffset: nat := 0;
      var more := true;
      status, ws, cuts := Done, [], [];
      while more
        invariant fragOffset <= totalLength && status == Done
        invariant Tracks(st, ws, cuts, version, e, m, size, fragOffset, more)
        invariant Packs(e, m, size, fragOffset, more, target)
        invariant !more ==> txDatagramLen > 0
        decreases more, totalLength - fragOffset
      {
        var fragLength := if totalLength - fragOffset < size then totalLength - fragOffset else size;
        status, ws, cuts :=
          FragmentRound(version, e, at, totalLength, size, limit, fragOffset, fragLength, m, st, ws, cuts, target);
        if status != Done {
          offset := fragOffset;
          return;
        }
        fragOffset := fragOffset + fragLength;
        more := fragOffset < totalLength;
      }
      PacksMeans(e, m, size, fragOffset, target);
      offset := fragOffset;
    }

    /** What the loop has done since it started: ws are the sealed records of the cuts. */
    ghost predicate Tracks(st: Start, ws: seq<Sealed>, cuts: seq<Fragment>, version: nat, e: Engine,
                           m: Reassembly.Message, size: nat, offset: nat, more: bool)
      requires size > 0 && offset <= |m.body|
      reads `encryptionEngine, `prevEncryptionEngine, `txBufferLen, `pmtu, `flight, txBuffer
      reads `emitted, `base, `prevBase, encryptionEngine.seqNum, prevEncryptionEngine.seqNum
      reads `sent, `datagrams, `txDatagramLen, `packing
    {
      Since(st, ws) && Cutting(ws, cuts, version, e, m, size, offset, more)
    }

    lemma TracksStart(st: Start, version: nat, e: Engine, m: Reassembly.Message, size: nat)
      requires size > 0 && Since(st, [])
      ensures Tracks(st, [], [], version, e, m, size, 0, true)
    {
      assert [] + Cuts(m, size) == Cuts(m, size);
    }

    lemma TracksMeans(st: Start, ws: seq<Sealed>, cuts: seq<Fragment>, version: nat, e: Engine,
                      m: Reassembly.Message, size: nat, offset: nat, more: bool)
      requires size > 0 && offset <= |m.body|
      requires Tracks(st, ws, cuts, version, e, m, size, offset, more)
      ensures Since(st, ws) && AllSealedBy(ws, e.cipher)
      ensures Plain(ws) <= FragmentRecords(version, e.epoch, Cuts(m, size))
      ensures !more ==> Plain(ws) == FragmentRecords(version, e.epoch, Cuts(m, size))
    {
      hide Since, Plain, Cuts, Encode;
      FragmentRecordsPrefix(version, e.epoch, cuts, if more then CutsFrom(m, size, offset) else []);
    }

    /** The cut to come, on values. */
    ghost predicate Cutting(ws: seq<Sealed>, cuts: seq<Fragment>, version: nat, e: Engine,
                            m: Reassembly.Message, size: nat, offset: nat, more: bool)
      requires size > 0 && offset <= |m.body|
    {
      && Plain(ws) == FragmentRecords(version, e.epoch, cuts) && AllSealedBy(ws, e.cipher)
      && CutsLeft(m, size, cuts, offset, more)
    }

    lemma TracksNext(st: Start, ws: seq<Sealed>, cuts: seq<Fragment>, version: nat, e: Engine,
                     m: Reassembly.Message, size: nat, offset: nat, len: nat)
      requires size > 0 && offset <= |m.body|
      requires Tracks(st, ws, cuts, version, e, m, size, offset, true)
      requires len == if |m.body| - offset < size then |m.body| - offset else size
      ensures Since(st, ws) && Cutting(ws, cuts, version, e, m, size, offset, true)
      ensures Cut(m, offset, size) == Fragment(m.msgType, |m.body|, m.msgSeq, offset, m.body[offset..offset + len])
    {
      NextCut(m, size, cuts, offset, len);
    }

    lemma TracksStep(st: Start, ws: seq<Sealed>, w: Sealed, cuts: seq<Fragment>, version: nat, e: Engine,
                     m: Reassembly.Message, size: nat, offset: nat, len: nat)
      requires size > 0 && offset <= |m.body|
      requires Cutting(ws, cuts, version, e, m, size, offset, true) && Since(st, ws + [w])
      requires len == if |m.body| - offset < size then |m.body| - offset else size
      requires w.record == Record(TYPE_HANDSHAKE, version, e.epoch, Encode(Cut(m, offset, size)))
      requires SealedBy(w, e.cipher)
      ensures Tracks(st, ws + [w], cuts + [Cut(m, offset, size)], version, e, m, size, offset + len,
                     offset + len < |m.body|)
    {
      NextCut(m, size, cuts, offset, len);
      hide Since, Plain, FragmentRecords, Encode, Cut, CutsLeft, SealedBy, AllSealedBy;
      FragmentRecordsSnoc(version, e.epoch, cuts, Cut(m, offset, size));
      RecordsSnoc(ws, w, e.cipher);
    }

    lemma TracksStay(st: Start, ws: seq<Sealed>, cuts: seq<Fragment>, version: nat, e: Engine,
                     m: Reassembly.Message, size: nat, offset: nat)
      requires size > 0 && offset <= |m.body|
      requires Cutting(ws, cuts, version, e, m, size, offset, true) && Since(st, ws)
      ensures Tracks(st, ws, cuts, version, e, m, size, offset, true)
    {
    }

    method FragmentRound(version: nat, e: Engine, at: nat, totalLength: nat, size: nat, limit: nat,
                         fragOffset: nat, fragLength: nat, ghost m: Reassembly.Message,
                         ghost st: Start, ghost ws: seq<Sealed>, ghost cuts: seq<Fragment>, ghost target: nat)
      returns (status: TxStatus, ghost ws': seq<Sealed>, ghost cuts': seq<Fragment>)
      requires e == encryptionEngine || e == prevEncryptionEngine
      requires limit == Pmtu() && version < 0x1_0000 && totalLength == |m.body|
      requires Holds(st.front, at, m)
      requires e.cipher.suite.WellFormed() && 0 < size == MaxFragSize(e)
      requires fragOffset <= totalLength
      requires fragLength == if totalLength - fragOffset < size then totalLength - fragOffset else size
      requires Tracks(st, ws, cuts, version, e, m, size, fragOffset, true)
      requires Packs(e, m, size, fragOffset, true, target)
      modifies `txDatagramLen, `packing, `emitted, `datagrams, `sent, txBuffer, e.seqNum
      ensures status == Done ==>
        Tracks(st, ws', cuts', version, e, m, size, fragOffset + fragLength, fragOffset + fragLength < totalLength)
      ensures status == Done ==> txDatagramLen > 0
      ensures status == Done ==>
        Packs(e, m, size, fragOffset + fragLength, fragOffset + fragLength < totalLength, target)
      ensures status != Done ==> Tracks(st, ws', cuts', version, e, m, size, fragOffset, true)
      ensures status == Done || (!faultless && (status == EncryptionFailed || status == SendFailed))
    {
      hide *;
      ghost var f := Cut(m, fragOffset, size);
      TracksNext(st, ws, cuts, version, e, m, size, fragOffset, fragLength);
      PacksNext(e, m, size, fragOffset, target);
      ghost var w;
      status, w := EmitFragment(version, e, at, totalLength, fragOffset, fragLength, limit, m, f, st, ws);
      ws', cuts' := ws, cuts;
      if status == Done {
        ws', cuts' := ws + [w], cuts + [f];
        TracksStep(st, ws, w, cuts, version, e, m, size, fragOffset, fragLength);
        PacksOn(e, m, size, fragOffset, fragLength, target);
      } else {
        TracksStay(st, ws, cuts, version, e, m, size, fragOffset);
      }
    }

    ghost function EngineFor(epoch: nat): Engine
      reads `encryptionEngine, `prevEncryptionEngine
    {
      if epoch == encryptionEngine.epoch then encryptionEngine else prevEncryptionEngine
    }

    ghost function FragSizes(): Sizes
      requires encryptionEngine.cipher.suite.WellFormed() && prevEncryptionEngine.cipher.suite.WellFormed()
      reads `encryptionEngine, `prevEncryptionEngine, `pmtu, `txBufferLen
    {
      Sizes(encryptionEngine.epoch, MaxFragSize(encryptionEngine), MaxFragSize(prevEncryptionEngine))
    }

    /** What the suites of the two epochs have to be. */
    ghost predicate Sendable()
      reads `encryptionEngine, `prevEncryptionEngine
    {
      encryptionEngine.cipher.suite.WellFormed() && prevEncryptionEngine.cipher.suite.WellFormed()
    }

    /** What packing depends on behind a flight of the given length. */
    ghost function FrameBehind(flightLen: nat): (x: Frame)
      requires Sendable()
      ensures x.Sound() && x.limit == PmtuBehind(flightLen) && x.room == txBufferSize - flightLen
      reads `encryptionEngine, `prevEncryptionEngine, `pmtu
    {
      var n := PmtuBehind(flightLen) - (RECORD_HEADER_LEN + HEADER_LEN);
      var cur, prev := encryptionEngine.cipher.suite, prevEncryptionEngine.cipher.suite;
      Frame(Sizes(encryptionEngine.epoch, n - Overhead(cur, 0), n - Overhead(prev, 0)),
            Suites(encryptionEngine, prevEncryptionEngine), PmtuBehind(flightLen), txBufferSize - flightLen)
    }

    ghost function TheFrame(): (x: Frame)
      requires Sendable()
      ensures x.Sound() && x.limit == Pmtu() && x.room == txBufferSize - txBufferLen && x.sizes == FragSizes()
      reads `encryptionEngine, `prevEncryptionEngine, `pmtu, `txBufferLen
    {
      FrameBehind(txBufferLen)
    }

    /** A flight of the given length can be sent: the walk over it stays on track, as in every initial
        handshake, and what it is protected into stays within the buffer. */
    ghost predicate Ready(records: seq<Record>, flightLen: nat)
      requires Sendable()
      reads `encryptionEngine, `prevEncryptionEngine, `pmtu
    {
      && OnTrack(records, Suites(encryptionEngine, prevEncryptionEngine), 0)
      && FlightClear(0, records, 0, FrameBehind(flightLen))
    }

    /** What sending the flight relies on. */
    ghost predicate CanSend()
      ensures CanSend() ==> Sendable()
      reads `encryptionEngine, `prevEncryptionEngine, `flight, `pmtu, `txBufferLen
    {
      Sendable() && Ready(flight, txBufferLen)
    }

    /** A flight on track can be sent when no suite is CBC, or when the flight leaves as much more than the
        PMTU in force as the suite may add to an estimate. */
    lemma AmpleCanSend()
      requires Sendable() && txBufferLen <= txBufferSize <= 0x1_0000
      requires OnTrack(flight, Suites(encryptionEngine, prevEncryptionEngine), 0) && OthersShort(flight, TheFrame())
      requires Ample(encryptionEngine.cipher.suite, TheFrame()) && Ample(prevEncryptionEngine.cipher.suite, TheFrame())
      ensures CanSend()
    {
      hide OnTrack, OthersShort, Overhead, FlightClear;
      AlwaysClear(0, flight, 0, TheFrame());
    }

    /** The PMTU in force is acceptable, and leaves room for the records of the flight. */
    ghost predicate Fits()
      requires Sendable()
      reads `encryptionEngine, `prevEncryptionEngine, `flight, `pmtu, `txBufferLen
    {
      FlightFits(flight, TheFrame())
    }

    /** With the suites there are, and ChangeCipherSpec the longest record besides handshake messages, a
        flight is acceptable exactly when 528 octets are left by both the PMTU and the buffer. So at the
        PMTU of 1452 the connection starts with, every such flight is accepted while as much is free. */
    lemma AcceptedIff()
      requires Sendable() && SmallParts(encryptionEngine.cipher.suite) && SmallParts(prevEncryptionEngine.cipher.suite)
      requires forall k :: 0 <= k < |flight| && flight[k].contentType != TYPE_HANDSHAKE ==> |flight[k].payload| <= 1
      ensures Fits() <==> pmtu >= 528 && txBufferSize - txBufferLen >= 528
      ensures pmtu == 1452 <= txBufferSize - txBufferLen ==> Fits()
    {
      hide Overhead;
      SmallOverhead(encryptionEngine.cipher.suite);
      SmallOverhead(prevEncryptionEngine.cipher.suite);
    }

    /** The first i records of the flight have become ws. */
    ghost predicate Expanded(ws: seq<Sealed>, i: nat)
      requires Sendable()
      reads `encryptionEngine, `prevEncryptionEngine, `flight, `pmtu, `txBufferLen
    {
      && i <= |flight|
      && (forall k :: 0 <= k < i ==> Sized(flight[k], FragSizes()) && RecordFits(flight[k], TheFrame()))
      && Plain(ws) == ExpandFlight(flight[..i], FragSizes())
      && SealedRun(ws, encryptionEngine, prevEncryptionEngine)
    }

    /** The records that the flight expands to have become ws up to some point. */
    ghost predicate Begun(ws: seq<Sealed>)
      requires Sendable()
      reads `encryptionEngine, `prevEncryptionEngine, `flight, `pmtu, `txBufferLen
    {
      exists j: nat :: BegunAt(ws, j)
    }

    ghost predicate BegunAt(ws: seq<Sealed>, j: nat)
      requires Sendable()
      reads `encryptionEngine, `prevEncryptionEngine, `flight, `pmtu, `txBufferLen
    {
      && j <= |flight|
      && (forall k :: 0 <= k < j ==> Sized(flight[k], FragSizes()))
      && Plain(ws) <= ExpandFlight(flight[..j], FragSizes())
      && SealedRun(ws, encryptionEngine, prevEncryptionEngine)
    }

    lemma NothingBegun()
      requires Sendable()
      ensures Begun([]) && forall s: seq<Sealed> :: s + [] == s
    {
      hide OnTrack;
      assert BegunAt([], 0);
    }

    lemma ExpandedBegun(ws: seq<Sealed>, i: nat)
      requires Sendable() && Expanded(ws, i)
      ensures Begun(ws)
    {
      hide RecordFits;
      assert BegunAt(ws, i);
    }

    // ----- One buffered record -----

    lemma SinceStart(st: Start)
      requires Sending() && txBufferLen <= txBuffer.Length
      requires st == Start(Front(txBufferLen), sent, emitted, Out())
      ensures Since(st, [])
    {
      assert emitted + [] == emitted && Out() + [] == Out();
    }

    /** An emission that began in the middle of another one continues it. */
    lemma SinceChain(st: Start, ws: seq<Sealed>, mid: Start, more: seq<Sealed>)
      requires Since(mid, more)
      requires mid.front == st.front && st.sent <= mid.sent && Bounded(mid.sent, |st.sent|, Pmtu() + slack)
      requires mid.emitted == st.emitted + ws && mid.out == st.out + ws
      ensures Since(st, ws + more)
    {
      BoundedOn(st.sent, mid.sent, sent, Pmtu() + slack);
      assert st.emitted + (ws + more) == (st.emitted + ws) + more;
      assert st.out + (ws + more) == (st.out + ws) + more;
    }

    /** A buffered handshake record goes out as its fragments. */
    method SendHandshake(at: nat, version: nat, e: Engine, ghost m: Reassembly.Message,
                         ghost st: Start, ghost ws: seq<Sealed>)
      returns (status: TxStatus, ghost more: seq<Sealed>)
      requires Since(st, ws)
      requires e == encryptionEngine || e == prevEncryptionEngine
      requires version < 0x1_0000 && Holds(st.front, at, m) && e.cipher.suite.WellFormed() && MessageClear(e, m)
      modifies `txDatagramLen, `packing, `emitted, `datagrams, `sent, txBuffer, e.seqNum
      ensures Since(st, ws + more)
      ensures status == Done ==> MaxFragSize(e) > 0
      ensures status == Done ==>
        txDatagramLen == CutsPacked(old(txDatagramLen), e.cipher.suite, Cuts(m, MaxFragSize(e)), Pmtu())
      ensures status == NoRoom <==> (Pmtu() < MIN_PMTU || MaxFragSize(e) <= 0)
      ensures faultless ==> status == Done || status == NoRoom
      ensures CutInto(more, version, e, m)
      ensures status == Done ==> Plain(more) == FragmentRecords(version, e.epoch, Cuts(m, MaxFragSize(e)))
    {
      assert txBufferLen <= txBuffer.Length && Sending() && Front(txBufferLen) == st.front;
      ghost var mid := Start(Front(txBufferLen), sent, emitted, Out());
      assert st.sent <= mid.sent && Bounded(mid.sent, |st.sent|, Pmtu() + slack);
      assert mid.emitted == st.emitted + ws && mid.out == st.out + ws;
      hide *;
      SinceStart(mid);
      status, more := FragmentHandshakeMessage(version, e, at, m, mid);
      SinceChain(st, ws, mid, more);
    }

    /** Copies a buffered record behind the datagram under construction and numbers it. */
    method CopyNext(pos: nat, n: nat, e: Engine, ghost r: Record, ghost st: Start, ghost ws: seq<Sealed>)
      requires Since(st, ws)
      requires e == encryptionEngine || e == prevEncryptionEngine
      requires n == RECORD_HEADER_LEN + |r.payload| && StoredAt(st.front, pos, r)
      requires txBufferLen + txDatagramLen + n <= txBuffer.Length
      modifies txBuffer
      ensures Since(st, ws)
      ensures StandsBehind(r, e)
    {
      hide NumberedFrom, Count, EncodeFlight, FlightWellFormed, RecordBytes, RecordHeader, Datagram, Flatten,
           Buffered, Lawful, Slack, SingleOther, Bounded;
      var to := txBufferLen + txDatagramLen;
      ghost var before := txBuffer[..];
      SubSlice(before, 0, txBufferLen, pos, pos + n);
      CopyRecord(pos, n, to, e, r);
      PrefixKept(before, txBuffer[..], txBufferLen, to);
    }

    /** The copy itself, and the store of the sequence number. */
    method CopyRecord(pos: nat, n: nat, to: nat, e: Engine, ghost r: Record)
      requires n == RECORD_HEADER_LEN + |r.payload| && pos + n <= to && to + n <= txBuffer.Length
      requires e.seqNum.Length == 6 && e.seqNum != txBuffer
      requires txBuffer[pos..pos + n] == Buffered(r)
      modifies txBuffer
      ensures Front(to) == old(Front(to))
      ensures txBuffer[to..to + n] == RecordBytes(r, SequenceNumber.Value(e.seqNum), r.payload)
    {
      hide RecordBytes, RecordHeader, Buffered, Moved, Overwritten, Load48;
      ghost var before := txBuffer[..];
      assert before[pos..pos + n] == txBuffer[pos..pos + n];
      Memcpy(txBuffer, to, pos, n);
      ghost var copied := txBuffer[..];
      Write(txBuffer, to + 5, e.seqNum[..]);
      NumberOctets(e.seqNum[..]);
      Renumbered(before, copied, txBuffer[..], pos, to, r, SequenceNumber.Value(e.seqNum));
    }

    /** A buffered record that is no handshake record goes out as it is. The length that the walk
        goes on by is read from the sealed copy. */
    method SendOther(pos: nat, e: Engine, limit: nat, ghost r: Record, ghost st: Start, ghost ws: seq<Sealed>)
      returns (status: TxStatus, ghost w: Sealed, length: nat)
      requires Since(st, ws) && limit == Pmtu() >= MIN_PMTU
      requires e == encryptionEngine || e == prevEncryptionEngine
      requires r.WireSized() && r.epoch == e.epoch && StoredAt(st.front, pos, r) && r.contentType != TYPE_HANDSHAKE
      requires e.cipher.suite.WellFormed() && OtherClear(e, |r.payload|, txDatagramLen)
      modifies `txDatagramLen, `packing, `emitted, `datagrams, `sent, txBuffer, e.seqNum
      ensures Since(st, if status == Done then ws + [w] else ws)
      ensures status == Done ==> w.record == r && SealedBy(w, e.cipher)
      ensures status == Done ==> length == |r.payload| + Growth(e.cipher.suite, |r.payload|)
      ensures status == Done ==> txBufferLen + Estimate(e.cipher.suite, |r.payload|) <= txBufferSize
      ensures status == Done ==>
        txDatagramLen == Joined(old(txDatagramLen), Estimate(e.cipher.suite, |r.payload|), limit)
                         + SealedLen(e.cipher.suite, |r.payload|)
      ensures faultless && txBufferLen + Estimate(e.cipher.suite, |r.payload|) <= txBufferSize ==> status == Done
    {
      hide *;
      w := Sealed(r, 0, []);
      length := StoredLength(pos, r, st, ws);
      OtherSizes(e, |r.payload|);
      var n := length + RECORD_HEADER_LEN;
      n := n + Overhead(e.cipher.suite, n);
      ghost var len := txDatagramLen;
      var ok := MakeRoom(n, limit, st, ws);
      if !ok {
        status := SendFailed;
      } else {
        RoomNow(e, st, ws, n, len, limit);
        if txBufferLen + txDatagramLen + n > txBufferSize {
          status := NoRoom;
          return;
        }
        OtherTaken(e, |r.payload|, len);
        OtherFits(e, r, st, ws, len);
        CopyNext(pos, length + RECORD_HEADER_LEN, e, r, st, ws);
        OtherFits(e, r, st, ws, len);
        var record := txBufferLen + txDatagramLen;
        ok, w := SealNext(e, r, st, ws);
        status := if ok then Done else EncryptionFailed;
        if ok {
          LengthStored(record, |w.body|);
          length := Load16(txBuffer[..], record + 11);
        }
      }
    }

    /** If the estimate lets the record pass, it fits when it is protected. */
    ghost predicate OtherClear(e: Engine, n: nat, len: nat)
      requires e.cipher.suite.WellFormed()
      reads `pmtu, `txBufferLen
    {
      var estimate := Estimate(e.cipher.suite, n);
      var j := Joined(len, estimate, Pmtu());
      j + estimate <= txBufferSize - txBufferLen ==> SealClear(j, e.cipher.suite, n, txBufferSize - txBufferLen)
    }

    /** The same when room has been made. */
    lemma OtherTaken(e: Engine, n: nat, len: nat)
      requires e.cipher.suite.WellFormed() && txDatagramLen == Joined(len, Estimate(e.cipher.suite, n), Pmtu())
      requires OtherClear(e, n, len) && txBufferLen + txDatagramLen + Estimate(e.cipher.suite, n) <= txBufferSize
      ensures SealClear(txDatagramLen, e.cipher.suite, n, txBufferSize - txBufferLen)
    {
    }

    lemma OtherSizes(e: Engine, length: nat)
      requires e.cipher.suite.WellFormed()
      ensures RECORD_HEADER_LEN == 13 && HEADER_LEN == 12
      ensures Estimate(e.cipher.suite, length) == length + 13 + Overhead(e.cipher.suite, length + 13)
    {
    }

    lemma LengthStored(pos: nat, length: nat)
      requires LengthAt(pos, length)
      ensures pos + 13 <= txBuffer.Length && Load16(txBuffer[..], pos + 11) == length
    {
    }

    /** What the flight and the PMTU leave of the buffer. */
    lemma RoomNow(e: Engine, st: Start, ws: seq<Sealed>, n: nat, len: nat, limit: nat)
      requires Since(st, ws) && limit == Pmtu() && txDatagramLen == Joined(len, n, limit)
      ensures txBufferLen + n <= txBufferSize ==> txBufferLen + txDatagramLen + n <= txBufferSize
    {
    }

    /** A record that is clear has room, and exceeds the bound only on its own. */
    lemma OtherFits(e: Engine, r: Record, st: Start, ws: seq<Sealed>, len: nat)
      requires Since(st, ws) && (e == encryptionEngine || e == prevEncryptionEngine)
      requires e.cipher.suite.WellFormed() && r.contentType != TYPE_HANDSHAKE
      requires txDatagramLen == Joined(len, Estimate(e.cipher.suite, |r.payload|), Pmtu())
      requires SealClear(txDatagramLen, e.cipher.suite, |r.payload|, txBufferSize - txBufferLen)
      ensures SealedFits(e, r) && txBufferLen + txDatagramLen + RECORD_HEADER_LEN + |r.payload| <= txBuffer.Length
    {
      assert EngineOk(e);
      hide Growth, Overhead, NumbersValid, LogValid, Packed;
      GrowthBounded(e.cipher.suite, |r.payload|, RECORD_HEADER_LEN + |r.payload|);
    }

    /** The length field of a stored record. */
    method StoredLength(pos: nat, ghost r: Record, ghost st: Start, ghost ws: seq<Sealed>) returns (length: nat)
      requires Since(st, ws) && r.WireSized() && StoredAt(st.front, pos, r)
      ensures Since(st, ws) && length == |r.payload|
    {
      SubSlice(txBuffer[..], 0, txBufferLen, pos, pos + RECORD_HEADER_LEN + |r.payload|);
      StoredHeader(txBuffer[..], pos, r, 0, r.payload);
      length := Load16(txBuffer[..], pos + 11);
    }

    // ----- The whole flight -----

    /** The walk stands at record i of the flight, and the records before it have become ws. */
    ghost predicate Visited(st: Start, ws: seq<Sealed>, i: nat)
      reads `encryptionEngine, `prevEncryptionEngine, `txBufferLen, `txBufferPos, `pmtu, `flight, txBuffer
      reads `emitted, `base, `prevBase, encryptionEngine.seqNum, prevEncryptionEngine.seqNum
      reads `sent, `datagrams, `txDatagramLen, `packing
    {
      && Since(st, ws) && Sendable() && Expanded(ws, i)
      && if i < |flight| then txBufferPos == StartOf(flight, i) else txBufferPos >= txBufferLen
    }

    /** The record the walk stands at. */
    lemma CurrentRecord(st: Start, ws: seq<Sealed>, i: nat)
      requires Visited(st, ws, i) && txBufferPos < txBufferLen
      ensures i < |flight| && StoredAt(st.front, txBufferPos, flight[i]) && flight[i].WireSized()
      ensures flight[i].version < 0x1_0000
      ensures EngineFor(flight[i].epoch) == encryptionEngine || EngineFor(flight[i].epoch) == prevEncryptionEngine
      ensures flight[i].epoch == EngineFor(flight[i].epoch).epoch
      ensures EngineFor(flight[i].epoch).cipher.suite.WellFormed()
      ensures flight[i].contentType == TYPE_HANDSHAKE ==>
        && |flight[i].payload| >= HEADER_LEN && HoldsMessage(flight[i])
        && Holds(st.front, txBufferPos + RECORD_HEADER_LEN, MessageOf(flight[i]))
    {
      hide NumberedFrom, Count, Datagram, Flatten, SealedRun, ExpandFlight, Plain, Bounded, Sized, EncodeFlight,
           StoredAt, HoldsMessage, Holds, MessageOf, Lawful, Slack, Growth, RecordFits, SingleOther;
      assert st.front == EncodeFlight(flight) && |st.front| == txBufferLen;
      RecordAt(st.front, flight, i, txBufferPos);
    }

    /** The walk arrives at the end of the buffer exactly behind the last record. */
    lemma WalkEnds(st: Start, ws: seq<Sealed>, i: nat)
      requires Visited(st, ws, i) && txBufferPos >= txBufferLen
      ensures Since(st, ws) && Expanded(ws, |flight|)
    {
      hide NumberedFrom, Count, Datagram, Flatten, SealedRun, ExpandFlight, Plain, Bounded, FlightWellFormed, Sized,
           RecordFits;
      assert |EncodeFlight(flight)| == txBufferLen;
      assert flight[..|flight|] == flight;
      if i < |flight| {
        FlightSplit(flight, i);
      }
    }

    /** The fields of the record the walk stands at. */
    method ReadFields(ghost st: Start, ghost ws: seq<Sealed>, ghost i: nat)
      returns (contentType: byte, version: nat, epoch: nat, length: nat)
      requires Visited(st, ws, i) && txBufferPos < txBufferLen
      ensures Visited(st, ws, i) && i < |flight|
      ensures contentType == flight[i].contentType && version == flight[i].version
      ensures epoch == flight[i].epoch && length == |flight[i].payload|
    {
      hide *;
      FieldsStored(st, ws, i);
      contentType := txBuffer[txBufferPos];
      version := Load16(txBuffer[..], txBufferPos + 1);
      epoch := Load16(txBuffer[..], txBufferPos + 3);
      length := Load16(txBuffer[..], txBufferPos + 11);
    }

    lemma FieldsStored(st: Start, ws: seq<Sealed>, i: nat)
      requires Visited(st, ws, i) && txBufferPos < txBufferLen
      ensures i < |flight| && txBufferPos + 13 <= txBuffer.Length
      ensures txBuffer[txBufferPos] == flight[i].contentType
      ensures Load16(txBuffer[..], txBufferPos + 1) == flight[i].version
      ensures Load16(txBuffer[..], txBufferPos + 3) == flight[i].epoch
      ensures Load16(txBuffer[..], txBufferPos + 11) == |flight[i].payload|
    {
      hide *;
      CurrentRecord(st, ws, i);
      VisitedParts(st, ws, i);
      FrontIs(st, ws);
      StoredFields(txBuffer[..], txBufferLen, txBufferPos, flight[i]);
    }

    lemma FrontIs(st: Start, ws: seq<Sealed>)
      requires Since(st, ws)
      ensures txBufferLen <= txBuffer.Length && st.front == txBuffer[..][..txBufferLen]
    {
    }

    /** One round of the walk. The length that moves it on is read from the buffered record
        after a handshake message, but from the sealed copy after any other record. */
    method SendRecord(limit: nat, ghost st: Start, ghost ws: seq<Sealed>, ghost i: nat)
      returns (status: TxStatus, ghost ws': seq<Sealed>)
      requires Visited(st, ws, i) && txBufferPos < txBufferLen && limit == Pmtu() >= MIN_PMTU
      requires i < |flight| && RecordClear(txDatagramLen, flight[i], TheFrame())
      modifies `txBufferPos, `txDatagramLen, `packing, `emitted, `datagrams, `sent, txBuffer
      modifies encryptionEngine.seqNum, prevEncryptionEngine.seqNum
      ensures Since(st, ws') && Sendable() && Begun(ws')
      ensures status == Done ==> Expanded(ws', i + 1)
      ensures status == Done ==> NowPackedBehind(old(txDatagramLen), i)
      ensures status == Done ==>
        old(txBufferPos) < txBufferPos == Behind(flight, Suites(encryptionEngine, prevEncryptionEngine), i)
      ensures faultless && Sendable() && Fits() ==> status == Done
    {
      hide *;
      var contentType, version, epoch, length := ReadFields(st, ws, i);
      var e := if epoch == encryptionEngine.epoch then encryptionEngine else prevEncryptionEngine;
      VisitedParts(st, ws, i);
      SelectedEngine(e, i);
      ghost var from := txBufferPos;
      if contentType == TYPE_HANDSHAKE {
        status, ws' := VisitHandshake(version, e, st, ws, i);
      } else {
        status, ws', length := VisitOther(e, limit, st, ws, i);
      }
      if status == Done {
        PassedBy(e, i, length);
        txBufferPos := txBufferPos + (length + RECORD_HEADER_LEN);
      }
    }

    /** The datagram under construction is as long as packing record i makes it. */
    ghost predicate NowPackedBehind(len: nat, i: nat)
      requires Sendable() && i < |flight|
      reads `encryptionEngine, `prevEncryptionEngine, `flight, `pmtu, `txBufferLen, `txDatagramLen
    {
      Taken(len, flight[i], TheFrame()) && txDatagramLen == RecordPacked(len, flight[i], TheFrame())
    }

    /** How far the length that was read moves the walk on. */
    lemma PassedBy(e: Engine, i: nat, length: nat)
      requires Sendable() && i < |flight| && e == EngineFor(flight[i].epoch)
      requires length == |flight[i].payload|
        + if flight[i].contentType == TYPE_HANDSHAKE then 0 else Growth(e.cipher.suite, |flight[i].payload|)
      ensures forall epoch :: Suites(encryptionEngine, prevEncryptionEngine)(epoch).WellFormed()
      ensures RECORD_HEADER_LEN == 13
      ensures Behind(flight, Suites(encryptionEngine, prevEncryptionEngine), i)
        == StartOf(flight, i) + length + RECORD_HEADER_LEN
    {
      hide Growth, EncodeFlight;
    }

    lemma SelectedEngine(e: Engine, i: nat)
      requires i < |flight| && Sendable()
      requires e == if flight[i].epoch == encryptionEngine.epoch then encryptionEngine else prevEncryptionEngine
      ensures e == EngineFor(flight[i].epoch) && e.cipher.suite.WellFormed()
      ensures Fits() ==> Pmtu() >= MIN_PMTU
      ensures Fits() ==>
        if flight[i].contentType == TYPE_HANDSHAKE then MaxFragSize(e) > 0
        else txBufferLen + Estimate(e.cipher.suite, |flight[i].payload|) <= txBufferSize
    {
      assert Fits() ==> RecordFits(flight[i], TheFrame());
    }

    method VisitHandshake(version: nat, e: Engine, ghost st: Start, ghost ws: seq<Sealed>, ghost i: nat)
      returns (status: TxStatus, ghost ws': seq<Sealed>)
      requires Visited(st, ws, i) && txBufferPos < txBufferLen && i < |flight|
      requires flight[i].contentType == TYPE_HANDSHAKE && version == flight[i].version
      requires e == EngineFor(flight[i].epoch) && e.cipher.suite.WellFormed()
      requires Sendable() && RecordClear(txDatagramLen, flight[i], TheFrame())
      modifies `txDatagramLen, `packing, `emitted, `datagrams, `sent, txBuffer, e.seqNum
      ensures Since(st, ws') && Sendable() && Begun(ws')
      ensures status == Done ==> Expanded(ws', i + 1) && NowPackedBehind(old(txDatagramLen), i)
      ensures faultless && Pmtu() >= MIN_PMTU && MaxFragSize(e) > 0 ==> status == Done
    {
      hide *;
      CurrentRecord(st, ws, i);
      ghost var m := MessageOf(flight[i]);
      VisitedParts(st, ws, i);
      HandshakeClear(e, i);
      ghost var more;
      ghost var len := txDatagramLen;
      status, more := SendHandshake(txBufferPos + RECORD_HEADER_LEN, version, e, m, st, ws);
      ws' := ws + more;
      BegunHandshake(ws, more, i);
      if status == Done {
        ExpandedHandshake(ws, more, i);
        HandshakePacked(e, i, len);
      }
    }

    lemma HandshakeClear(e: Engine, i: nat)
      requires Sendable() && i < |flight| && e == EngineFor(flight[i].epoch)
      requires flight[i].contentType == TYPE_HANDSHAKE && HoldsMessage(flight[i])
      requires RecordClear(txDatagramLen, flight[i], TheFrame())
      ensures MessageClear(e, MessageOf(flight[i]))
    {
      hide CutsClear, Cuts, HoldsMessage, MessageOf, Overhead;
    }

    lemma HandshakePacked(e: Engine, i: nat, len: nat)
      requires Sendable() && i < |flight| && e == EngineFor(flight[i].epoch) && MaxFragSize(e) > 0
      requires flight[i].contentType == TYPE_HANDSHAKE && HoldsMessage(flight[i])
      requires txDatagramLen == CutsPacked(len, e.cipher.suite, Cuts(MessageOf(flight[i]), MaxFragSize(e)), Pmtu())
      ensures NowPackedBehind(len, i)
    {
      hide CutsPacked, Cuts, HoldsMessage, MessageOf, Overhead;
    }

    lemma OtherPacked(e: Engine, i: nat, len: nat)
      requires Sendable() && i < |flight| && e == EngineFor(flight[i].epoch) && flight[i].contentType != TYPE_HANDSHAKE
      requires var estimate := Estimate(e.cipher.suite, |flight[i].payload|);
        && txBufferLen + estimate <= txBufferSize
        && txDatagramLen == Joined(len, estimate, Pmtu()) + SealedLen(e.cipher.suite, |flight[i].payload|)
      ensures NowPackedBehind(len, i)
    {
      hide Estimate, SealedLen;
    }

    lemma OtherRecordClear(e: Engine, i: nat)
      requires Sendable() && i < |flight| && e == EngineFor(flight[i].epoch) && flight[i].contentType != TYPE_HANDSHAKE
      requires RecordClear(txDatagramLen, flight[i], TheFrame())
      ensures OtherClear(e, |flight[i].payload|, txDatagramLen)
    {
      hide Estimate, SealedLen;
    }

    lemma BegunHandshake(ws: seq<Sealed>, more: seq<Sealed>, i: nat)
      requires Sendable() && Expanded(ws, i) && i < |flight|
      requires flight[i].contentType == TYPE_HANDSHAKE && HoldsMessage(flight[i])
      requires EngineFor(flight[i].epoch).epoch == flight[i].epoch
      requires CutInto(more, flight[i].version, EngineFor(flight[i].epoch), MessageOf(flight[i]))
      ensures Begun(ws + more)
    {
      hide RecordFits, SealedBy, Cuts, Encode, MessageOf, MaxFragSize;
      var e := EngineFor(flight[i].epoch);
      if MaxFragSize(e) > 0 {
        var rs := FragmentRecords(flight[i].version, e.epoch, Cuts(MessageOf(flight[i]), MaxFragSize(e)));
        OneEpoch(more, flight[i].version, e.epoch, Cuts(MessageOf(flight[i]), MaxFragSize(e)),
                 encryptionEngine, prevEncryptionEngine);
        assert flight[..i + 1][..i] == flight[..i];
        assert Plain(ws + more) == Plain(ws) + Plain(more);
        assert Expand(flight[i], FragSizes()) == rs;
        assert BegunAt(ws + more, i + 1);
      } else {
        assert ws + more == ws;
        assert BegunAt(ws, i);
      }
    }

    method VisitOther(e: Engine, limit: nat, ghost st: Start, ghost ws: seq<Sealed>, ghost i: nat)
      returns (status: TxStatus, ghost ws': seq<Sealed>, length: nat)
      requires Visited(st, ws, i) && txBufferPos < txBufferLen && i < |flight| && limit == Pmtu() >= MIN_PMTU
      requires flight[i].contentType != TYPE_HANDSHAKE && e == EngineFor(flight[i].epoch) && e.cipher.suite.WellFormed()
      requires Sendable() && RecordClear(txDatagramLen, flight[i], TheFrame())
      modifies `txDatagramLen, `packing, `emitted, `datagrams, `sent, txBuffer, e.seqNum
      ensures Since(st, ws') && Sendable() && Begun(ws')
      ensures status == Done ==> Expanded(ws', i + 1) && NowPackedBehind(old(txDatagramLen), i)
      ensures status == Done ==> length == |flight[i].payload| + Growth(e.cipher.suite, |flight[i].payload|)
      ensures faultless && txBufferLen + Estimate(e.cipher.suite, |flight[i].payload|) <= txBufferSize ==>
        status == Done
    {
      hide *;
      CurrentRecord(st, ws, i);
      VisitedParts(st, ws, i);
      OtherRecordClear(e, i);
      ghost var w;
      ghost var len := txDatagramLen;
      status, w, length := SendOther(txBufferPos, e, limit, flight[i], st, ws);
      ws' := ws;
      ExpandedBegun(ws, i);
      if status == Done {
        ws' := ws + [w];
        OtherRecordFits(e, i);
        OtherPacked(e, i, len);
        ExpandedOther(ws, w, i);
        ExpandedBegun(ws', i + 1);
      }
    }

    lemma VisitedParts(st: Start, ws: seq<Sealed>, i: nat)
      requires Visited(st, ws, i)
      ensures Since(st, ws) && Sendable() && Expanded(ws, i) && i <= |flight|
      ensures i < |flight| ==> txBufferPos == StartOf(flight, i)
    {
    }

    lemma ExpandedHandshake(ws: seq<Sealed>, more: seq<Sealed>, i: nat)
      requires Sendable() && Expanded(ws, i) && i < |flight|
      requires flight[i].contentType == TYPE_HANDSHAKE && HoldsMessage(flight[i])
      requires EngineFor(flight[i].epoch).epoch == flight[i].epoch
      requires MaxFragSize(EngineFor(flight[i].epoch)) > 0
      requires CutInto(more, flight[i].version, EngineFor(flight[i].epoch), MessageOf(flight[i]))
      requires Plain(more) == FragmentRecords(flight[i].version, flight[i].epoch,
                                              Cuts(MessageOf(flight[i]), MaxFragSize(EngineFor(flight[i].epoch))))
      ensures Expanded(ws + more, i + 1)
    {
      assert Plain(more) == Expand(flight[i], FragSizes());
      OneEpoch(more, flight[i].version, flight[i].epoch,
               Cuts(MessageOf(flight[i]),
                    MaxFragSize(EngineFor(flight[i].epoch))), encryptionEngine, prevEncryptionEngine);
      ExpandedMore(ws, more, i);
    }

    lemma OtherRecordFits(e: Engine, i: nat)
      requires i < |flight| && flight[i].contentType != TYPE_HANDSHAKE && e == EngineFor(flight[i].epoch) && Sendable()
      requires txBufferLen + Estimate(e.cipher.suite, |flight[i].payload|) <= txBufferSize
      ensures RecordFits(flight[i], TheFrame())
    {
    }

    lemma ExpandedOther(ws: seq<Sealed>, w: Sealed, i: nat)
      requires Sendable() && Expanded(ws, i) && i < |flight|
      requires flight[i].contentType != TYPE_HANDSHAKE && w.record == flight[i]
      requires SealedBy(w, EngineFor(flight[i].epoch).cipher) && RecordFits(flight[i], TheFrame())
      ensures Expanded(ws + [w], i + 1)
    {
      assert Plain([w]) == Expand(flight[i], FragSizes());
      ExpandedMore(ws, [w], i);
    }

    lemma ExpandedMore(ws: seq<Sealed>, more: seq<Sealed>, i: nat)
      requires Sendable() && Expanded(ws, i) && i < |flight|
      requires Sized(flight[i], FragSizes()) && RecordFits(flight[i], TheFrame())
      requires Plain(more) == Expand(flight[i], FragSizes())
      requires SealedRun(more, encryptionEngine, prevEncryptionEngine)
      ensures Expanded(ws + more, i + 1)
    {
      hide SealedBy, Expand, RecordFits;
      assert flight[..i + 1][..i] == flight[..i];
      assert Plain(ws + more) == Plain(ws) + Plain(more);
    }

    /** dtlsSendFlight, the loop over the buffered records. */
    method FlightLoop(limit: nat, ghost st: Start) returns (status: TxStatus, ghost ws: seq<Sealed>)
      requires Visited(st, [], 0) && CanSend() && txDatagramLen == 0 && limit == Pmtu() >= MIN_PMTU
      modifies `txBufferPos, `txDatagramLen, `packing, `emitted, `datagrams, `sent, txBuffer
      modifies encryptionEngine.seqNum, prevEncryptionEngine.seqNum
      ensures Since(st, ws) && Sendable() && Begun(ws)
      ensures status == Done ==> CanSend() && Expanded(ws, |flight|)
      ensures faultless && CanSend() && Fits() ==> status == Done
    {
      hide *;
      status, ws := Done, [];
      ghost var i := 0;
      StartsClear();
      while txBufferPos < txBufferLen
        invariant status == Done && Visited(st, ws, i) && CanSend()
        invariant FlightClear(txDatagramLen, flight, i, TheFrame())
        decreases txBufferLen - txBufferPos
      {
        CurrentRecord(st, ws, i);
        ghost var len := txDatagramLen;
        ClearNow(len, i);
        status, ws := SendRecord(limit, st, ws, i);
        if status != Done {
          return;
        }
        OnTrackStill(st, ws, i);
        ClearNext(len, i);
        i := i + 1;
      }
      VisitedParts(st, ws, i);
      WalkEnds(st, ws, i);
      ExpandedBegun(ws, i);
    }

    lemma StartsClear()
      requires CanSend() && txDatagramLen == 0
      ensures FlightClear(txDatagramLen, flight, 0, TheFrame())
    {
      hide OnTrack, FlightClear;
    }

    lemma ClearNow(len: nat, i: nat)
      requires Sendable() && i < |flight| && FlightClear(len, flight, i, TheFrame())
      ensures RecordClear(len, flight[i], TheFrame())
    {
      hide RecordClear, Taken, RecordPacked, TheFrame;
    }

    lemma ClearNext(len: nat, i: nat)
      requires Sendable() && i < |flight| && FlightClear(len, flight, i, TheFrame()) && NowPackedBehind(len, i)
      ensures FlightClear(txDatagramLen, flight, i + 1, TheFrame())
    {
      hide RecordClear, Taken, RecordPacked, TheFrame;
    }

    /** On track, the walk is at the next record then. */
    lemma OnTrackStill(st: Start, ws: seq<Sealed>, i: nat)
      requires Since(st, ws) && CanSend() && i < |flight| && Expanded(ws, i + 1)
      requires txBufferPos == Behind(flight, Suites(encryptionEngine, prevEncryptionEngine), i)
      ensures Visited(st, ws, i + 1)
    {
      StaysOnTrack(flight, Suites(encryptionEngine, prevEncryptionEngine), i);
      FrontLength(st, ws);
      hide Since, Expanded, EncodeFlight, Behind, StartOf, FlightClear, OnTrack, Suites;
    }

    lemma FrontLength(st: Start, ws: seq<Sealed>)
      requires Since(st, ws)
      ensures |EncodeFlight(flight)| == txBufferLen
    {
    }

    /** dtlsSendFlight: every buffered record is visited once, in order. On success the datagrams
        handed to the socket hold, one after the other, the records the flight expands to, the
        flight itself is untouched, and the timer is restarted. Whatever happens, they hold such
        records up to some point. */
    method SendFlight(now: nat) returns (status: TxStatus, ghost ws: seq<Sealed>)
      requires Valid() && CanSend()
      modifies `txBufferPos, `txDatagramLen, `packing, `emitted, `datagrams, `sent, txBuffer
      modifies `retransmitCount, `retransmitTimestamp, encryptionEngine.seqNum, prevEncryptionEngine.seqNum
      ensures Valid()
      ensures Front(txBufferLen) == old(Front(txBufferLen))
      ensures old(sent) <= sent && Bounded(sent, |old(sent)|, Pmtu() + slack)
      ensures emitted == old(emitted) + ws
      ensures CanSend() && Begun(ws) && Flatten(datagrams) <= old(Flatten(datagrams)) + ws
      ensures status == Done ==> Expanded(ws, |flight|)
      ensures status == Done ==> Flatten(datagrams) == old(Flatten(datagrams)) + ws
      ensures if faultless then (status == Done <==> Fits()) else status == Done ==> Fits()
      ensures if status == Done then retransmitCount == old(retransmitCount) + 1 && retransmitTimestamp == now
              else retransmitCount == old(retransmitCount) && retransmitTimestamp == old(retransmitTimestamp)
    {
      hide *;
      ghost var st := Begin();
      status, ws := CarryOut(st);
      SinceMeans(st, ws);
      if status == Done {
        retransmitTimestamp := now;
        retransmitCount := retransmitCount + 1;
      }
    }

    /** Sending the flight is bound to succeed. */
    ghost predicate Sure()
      reads `encryptionEngine, `prevEncryptionEngine, `flight, `pmtu, `txBufferLen
    {
      faultless && CanSend() && Fits()
    }

    /** One answer to a retransmitting peer: the timer t has moved on as it should, and where it counts a
        transmission, the whole flight has gone out behind what was sent before. The answer was sent if
        that was sure, and sent or not otherwise. */
    ghost predicate Repeated(t: Retransmission.Timer, before: seq<Sealed>, now: nat, sure: bool)
      reads `encryptionEngine, `prevEncryptionEngine, `flight, `pmtu, `txBufferLen, `datagrams
      reads `retransmitCount, `retransmitTimeout, `retransmitTimestamp
    {
      exists ok: bool ::
        && (sure ==> ok) && Timer() == Retransmission.OnEvent(t, Retransmission.PeerRetransmits(now, ok)).0
        && (ok && t.count < 5 ==> FlightAdded(before))
    }

    ghost predicate FlightAdded(before: seq<Sealed>)
      reads `encryptionEngine, `prevEncryptionEngine, `flight, `pmtu, `txBufferLen, `datagrams
    {
      Sendable() && exists ws :: Expanded(ws, |flight|) && Flatten(datagrams) == before + ws
    }

    /** The flight is sent once more for a peer that repeats its own, as long as the limit allows; ok says
        whether it was. */
    method RepeatFlight(now: nat) returns (ghost ok: bool, ghost ws: seq<Sealed>)
      requires Valid() && CanSend()
      modifies `txBufferPos, `txDatagramLen, `packing, `emitted, `datagrams, `sent, txBuffer
      modifies `retransmitCount, `retransmitTimestamp, encryptionEngine.seqNum, prevEncryptionEngine.seqNum
      ensures Valid() && CanSend()
      ensures if txBufferLen > 0 then Repeated(old(Timer()), old(Flatten(datagrams)), now, old(Sure()))
              else Timer() == old(Timer()) && sent == old(sent)
      ensures emitted == old(emitted) + ws
      ensures Begun(ws) && Flatten(datagrams) <= old(Flatten(datagrams)) + ws
      ensures old(txBufferLen) > 0 && old(retransmitCount) < 5 && (ok || old(Sure())) ==>
        && ok && Timer() == old(Timer()).(count := old(retransmitCount) + 1, timestamp := now)
        && Expanded(ws, |flight|) && Flatten(datagrams) == old(Flatten(datagrams)) + ws
      ensures !(txBufferLen > 0 && old(retransmitCount) < 5) ==>
        !ok && ws == [] && Timer() == old(Timer()) && sent == old(sent) && datagrams == old(datagrams)
    {
      hide Valid, Front, Bounded, Expanded, Begun, Sendable, Flatten, Expand, Ready;
      NothingBegun();
      ok, ws := false, [];
      if txBufferLen > 0 {
        ghost var t, sure, before := Timer(), Sure(), Flatten(datagrams);
        if retransmitCount < Retransmission.MAX_RETRIES {
          var status;
          status, ws := SendFlight(now);
          ok := status == Done;
          assert sure ==> ok;
          assert ok ==> FlightAdded(before);
          assert Timer() == Retransmission.OnEvent(t, Retransmission.PeerRetransmits(now, ok)).0;
        } else {
          assert Timer() == Retransmission.OnEvent(t, Retransmission.PeerRetransmits(now, true)).0;
        }
      }
    }

    /** The datagram under construction is empty, and the walk starts at the first record. */
    method Begin() returns (ghost st: Start)
      requires Valid() && CanSend()
      modifies `txBufferPos, `txDatagramLen, `packing
      ensures Visited(st, [], 0) && txDatagramLen == 0
      ensures txBufferLen <= txBuffer.Length && st.front == Front(txBufferLen) && st.sent == sent
      ensures st.emitted == emitted && st.out == Flatten(datagrams)
    {
      hide NumberedFrom, Count, Datagram, EncodeFlight, Flatten, ExpandFlight, Sized, Slack, Lawful, FlightWellFormed,
           Plain, Ready;
      txDatagramLen := 0;
      packing := [];
      txBufferPos := 0;
      st := Start(Front(txBufferLen), sent, emitted, Out());
      NothingPacked();
      SinceStart(st);
      NothingVisited();
    }

    lemma NothingPacked()
      requires txDatagramLen == 0 && packing == [] && txBufferLen <= txBuffer.Length
      ensures Packed() && Out() == Flatten(datagrams)
    {
      assert txBuffer[txBufferLen..txBufferLen] == [];
      assert Datagram([]) == [];
    }

    lemma NothingVisited()
      requires Sendable()
      ensures Expanded([], 0) && |EncodeFlight(flight[..0])| == 0
    {
      assert flight[..0] == [];
    }

    /** The check and the walk, and when they succeed. */
    method CarryOut(ghost st: Start) returns (status: TxStatus, ghost ws: seq<Sealed>)
      requires Visited(st, [], 0) && CanSend() && txDatagramLen == 0
      modifies `txBufferPos, `txDatagramLen, `packing, `emitted, `datagrams, `sent, txBuffer
      modifies encryptionEngine.seqNum, prevEncryptionEngine.seqNum
      ensures Since(st, ws) && CanSend() && Begun(ws)
      ensures status == Done ==> Expanded(ws, |flight|) && Flatten(datagrams) == st.out + ws
      ensures if faultless then (status == Done <==> Fits()) else status == Done ==> Fits()
    {
      hide Visited, Since, Expanded, Begun, Flatten, Growth, Overhead, Ready;
      status, ws := CheckAndWalk(st);
      if status == Done {
        ExpandedFits(ws);
      }
    }

    lemma ExpandedFits(ws: seq<Sealed>)
      requires Sendable() && Expanded(ws, |flight|) && Pmtu() >= MIN_PMTU
      ensures Fits()
    {
      hide RecordFits, Sized;
    }

    /** Makes sure that the PMTU value is acceptable before anything is sent. */
    method CheckAndWalk(ghost st: Start) returns (status: TxStatus, ghost ws: seq<Sealed>)
      requires Visited(st, [], 0) && CanSend() && txDatagramLen == 0
      modifies `txBufferPos, `txDatagramLen, `packing, `emitted, `datagrams, `sent, txBuffer
      modifies encryptionEngine.seqNum, prevEncryptionEngine.seqNum
      ensures Since(st, ws) && Sendable() && Begun(ws)
      ensures status == Done ==> CanSend() && Expanded(ws, |flight|) && Flatten(datagrams) == st.out + ws
      ensures faultless && CanSend() && Fits() ==> status == Done
      ensures Pmtu() < MIN_PMTU ==> status == NoRoom
    {
      var limit := if pmtu < txBufferSize - txBufferLen then pmtu else txBufferSize - txBufferLen;
      assert limit == Pmtu();
      hide *;
      if limit < MIN_PMTU {
        status, ws := NoRoom, [];
        VisitedParts(st, ws, 0);
        ExpandedBegun(ws, 0);
      } else {
        status, ws := Walk(limit, st);
      }
    }

    /** Walks over the flight, and sends what is pending at the end. */
    method Walk(limit: nat, ghost st: Start) returns (status: TxStatus, ghost ws: seq<Sealed>)
      requires Visited(st, [], 0) && CanSend() && txDatagramLen == 0 && limit == Pmtu() >= MIN_PMTU
      modifies `txBufferPos, `txDatagramLen, `packing, `emitted, `datagrams, `sent, txBuffer
      modifies encryptionEngine.seqNum, prevEncryptionEngine.seqNum
      ensures Since(st, ws) && Sendable() && Begun(ws)
      ensures status == Done ==> CanSend() && Expanded(ws, |flight|) && Flatten(datagrams) == st.out + ws
      ensures faultless && CanSend() && Fits() ==> status == Done
    {
      hide *;
      status, ws := FlightLoop(limit, st);
      if status == Done {
        status := Finish(st, ws);
      }
    }

    /** Sends what is pending after the last record. */
    method Finish(ghost st: Start, ghost ws: seq<Sealed>) returns (status: TxStatus)
      requires Since(st, ws)
      modifies `txDatagramLen, `packing, `datagrams, `sent
      ensures Since(st, ws) && (status == Done || (!faultless && status == SendFailed))
      ensures status == Done ==> Flatten(datagrams) == st.out + ws
    {
      hide Datagram, Flatten, NumberedFrom, Count, EncodeFlight, FlightWellFormed;
      status := Done;
      if txDatagramLen > 0 {
        ghost var before := sent;
        var ok := SendDatagram();
        assert st.sent <= sent && Bounded(sent, |st.sent|, Pmtu() + slack) by {
          if ok { BoundedOn(st.sent, before, sent, Pmtu() + slack); }
        }
        status := if ok then Done else SendFailed;
      }
      assert packing == [] ==> Out() == Flatten(datagrams);
    }

    lemma SinceMeans(st: Start, ws: seq<Sealed>)
      requires Since(st, ws)
      ensures Flatten(datagrams) <= st.out + ws
      ensures Valid() && txBufferLen <= txBuffer.Length && Front(txBufferLen) == st.front
      ensures st.sent <= sent && Bounded(sent, |st.sent|, Pmtu() + slack)
      ensures emitted == st.emitted + ws
    {
    }

    // ----- Writing records -----

    predicate IsBuffered(contentType: byte) {
      contentType == TYPE_HANDSHAKE || contentType == TYPE_CHANGE_CIPHER_SPEC
    }

    /** The record that dtlsWriteRecord forms. */
    ghost function NewRecord(data: seq<byte>, contentType: byte): Record
      reads `encryptionEngine
    {
      Record(contentType, TranslateVersion(encryptionEngine.version), encryptionEngine.epoch, data)
    }

    /** There is room behind the flight for a record with so many octets, as it is estimated. */
    ghost predicate FitsAlone(length: nat)
      requires encryptionEngine.cipher.suite.WellFormed()
      reads `encryptionEngine, `txBufferLen
    {
      txBufferLen + Estimate(encryptionEngine.cipher.suite, length) <= txBufferSize
    }

    /** Then there is room for it when it is protected. */
    ghost predicate AloneClear(length: nat)
      requires encryptionEngine.cipher.suite.WellFormed()
      reads `encryptionEngine, `txBufferLen
    {
      FitsAlone(length) ==> SealClear(0, encryptionEngine.cipher.suite, length, txBufferSize - txBufferLen)
    }

    /** dtlsWriteRecord: handshake and ChangeCipherSpec records join the flight, with a zero
        sequence number; any other record is numbered, sealed and sent in its own datagram. */
    method WriteRecord(data: seq<byte>, contentType: byte) returns (status: TxStatus, ghost alone: seq<Sealed>)
      requires Valid() && |data| < 0x1_0000
      requires encryptionEngine.cipher.suite.WellFormed() && (!IsBuffered(contentType) ==> AloneClear(|data|))
      requires contentType == TYPE_HANDSHAKE ==> HoldsMessage(NewRecord(data, contentType))
      modifies `txBufferLen, `flight, `emitted, `datagrams, `sent, txBuffer, encryptionEngine.seqNum
      ensures Valid()
      ensures emitted == old(emitted) + alone
      ensures IsBuffered(contentType) ==>
        && alone == [] && sent == old(sent) && datagrams == old(datagrams)
        && (status == Done <==> old(txBufferLen) + RECORD_HEADER_LEN + |data| <= txBufferSize)
        && (status == Done ==> flight == old(flight) + [NewRecord(data, contentType)])
        && (status == Done ==> txBufferLen == old(txBufferLen) + RECORD_HEADER_LEN + |data|)
        && (status != Done ==> status == NoRoom && flight == old(flight) && txBufferLen == old(txBufferLen))
      ensures !IsBuffered(contentType) ==> flight == old(flight) && txBufferLen == old(txBufferLen)
      ensures !IsBuffered(contentType) ==>
        if status == Done then SentAlone(alone, data, contentType, old(sent), old(datagrams))
        else sent == old(sent) && datagrams == old(datagrams)
      ensures !IsBuffered(contentType) && faultless ==> (status == Done <==> FitsAlone(|data|))
    {
      alone := [];
      var n := |data| + RECORD_HEADER_LEN;
      if txBufferLen + n > txBufferSize {
        status := NoRoom;
        return;
      }
      if IsBuffered(contentType) {
        BufferRecord(data, contentType);
        status := Done;
      } else {
        status, alone := WriteNow(data, contentType);
      }
    }

    method BufferRecord(data: seq<byte>, contentType: byte)
      requires Valid() && |data| < 0x1_0000 && txBufferLen + RECORD_HEADER_LEN + |data| <= txBufferSize
      requires contentType == TYPE_HANDSHAKE ==> HoldsMessage(NewRecord(data, contentType))
      modifies `txBufferLen, `flight, txBuffer
      ensures Valid()
      ensures flight == old(flight) + [NewRecord(data, contentType)]
      ensures txBufferLen == old(txBufferLen) + RECORD_HEADER_LEN + |data|
    {
      hide NumberedFrom, Count, Datagram, HoldsMessage;
      ghost var r := NewRecord(data, contentType);
      ghost var before := txBuffer[..];
      var header := [contentType] + Store16(TranslateVersion(encryptionEngine.version))
                    + Store16(encryptionEngine.epoch) + [0, 0, 0, 0, 0, 0] + Store16(|data|);
      assert header + data == Buffered(r) by { assert Store48(0) == [0, 0, 0, 0, 0, 0]; }
      Write(txBuffer, txBufferLen, header + data);
      flight := flight + [r];
      txBufferLen := txBufferLen + (|data| + RECORD_HEADER_LEN);
      assert flight[..|flight| - 1] == old(flight);
      assert txBuffer[..txBufferLen] == before[..old(txBufferLen)] + Buffered(r);
    }

    /** The one record that the data has become, protected, alone in a datagram. */
    ghost predicate SentAlone(alone: seq<Sealed>, data: seq<byte>, contentType: byte, before: seq<seq<byte>>,
                              log: seq<seq<Sealed>>)
      reads `encryptionEngine, `sent, `datagrams
    {
      && |alone| == 1 && alone[0].record == NewRecord(data, contentType)
      && SealedBy(alone[0], encryptionEngine.cipher)
      && sent == before + [alone[0].Octets()] && datagrams == log + [alone]
    }

    method WriteNow(data: seq<byte>, contentType: byte) returns (status: TxStatus, ghost alone: seq<Sealed>)
      requires Valid() && txBufferLen + RECORD_HEADER_LEN + |data| <= txBufferSize
      requires encryptionEngine.cipher.suite.WellFormed() && AloneClear(|data|)
      modifies `emitted, `datagrams, `sent, txBuffer, encryptionEngine.seqNum
      ensures Valid()
      ensures emitted == old(emitted) + alone
      ensures if status == Done then SentAlone(alone, data, contentType, old(sent), old(datagrams))
              else sent == old(sent) && datagrams == old(datagrams)
      ensures faultless ==> (status == Done <==> FitsAlone(|data|))
    {
      hide *;
      AloneSizes(data);
      alone := [];
      var n := |data| + RECORD_HEADER_LEN;
      n := n + Overhead(encryptionEngine.cipher.suite, n);
      if txBufferLen + n > txBufferSize {
        status := NoRoom;
        return;
      }
      var ok;
      ghost var w;
      ok, w := SealBehind(data, contentType);
      if !ok {
        status := EncryptionFailed;
        return;
      }
      ghost var before, log := sent, datagrams;
      status := SendNumbered(w);
      alone := [w];
      WasSentAlone(w, data, contentType, before, log, status);
    }

    lemma WasSentAlone(w: Sealed, data: seq<byte>, contentType: byte, before: seq<seq<byte>>, log: seq<seq<Sealed>>,
                       status: TxStatus)
      requires w.record == NewRecord(data, contentType) && SealedBy(w, encryptionEngine.cipher)
      requires status == Done ==> sent == before + [w.Octets()] && datagrams == log + [[w]]
      ensures status == Done ==> SentAlone([w], data, contentType, before, log)
    {
    }

    /** What the estimate says, and what follows from it. */
    lemma AloneSizes(data: seq<byte>)
      requires Valid() && encryptionEngine.cipher.suite.WellFormed() && AloneClear(|data|)
      ensures FitsAlone(|data|) <==>
        txBufferLen + (|data| + RECORD_HEADER_LEN + Overhead(encryptionEngine.cipher.suite, |data| + RECORD_HEADER_LEN))
        <= txBufferSize
      ensures FitsAlone(|data|) ==>
        var grown := |data| + Growth(encryptionEngine.cipher.suite, |data|);
        grown < 0x1_0000 && txBufferLen + RECORD_HEADER_LEN + grown <= txBuffer.Length
    {
      hide NumbersValid, LogValid, Growth, Overhead;
    }

    /** Formats the record behind the flight and protects it there. */
    method SealBehind(data: seq<byte>, contentType: byte) returns (ok: bool, ghost w: Sealed)
      requires Valid()
      requires var grown := |data| + Growth(encryptionEngine.cipher.suite, |data|);
        grown < 0x1_0000 && txBufferLen + RECORD_HEADER_LEN + grown <= txBuffer.Length
      modifies txBuffer
      ensures Valid() && (faultless ==> ok)
      ensures w.record == NewRecord(data, contentType) && w.record.WireSized()
      ensures w.record.epoch == encryptionEngine.epoch
      ensures w.seqNum == SequenceNumber.Value(encryptionEngine.seqNum)
      ensures ok ==> SealedBy(w, encryptionEngine.cipher) && |w.body| < 0x1_0000
      ensures ok ==> StandsAt(txBufferLen, w)
    {
      hide NumberedFrom, Count, EncodeFlight, FlightWellFormed, Growth, SealedBy, RecordBytes, RecordHeader, Slack,
           Sealed.Octets;
      ghost var front := Front(txBufferLen);
      PutRecord(data, contentType);
      ok, w := EncryptRecord(txBufferLen, encryptionEngine, NewRecord(data, contentType),
                             SequenceNumber.Value(encryptionEngine.seqNum));
      assert Front(txBufferLen) == front;
    }

    ghost predicate StandsAt(pos: nat, w: Sealed)
      reads txBuffer
    {
      pos + |w.Octets()| <= txBuffer.Length && txBuffer[pos..pos + |w.Octets()|] == w.Octets()
    }

    /** The record behind the flight takes its number and goes out. */
    method SendNumbered(ghost w: Sealed) returns (status: TxStatus)
      requires Valid() && w.record.WireSized() && |w.body| < 0x1_0000 && StandsAt(txBufferLen, w)
      requires w.record.epoch == encryptionEngine.epoch && w.seqNum == SequenceNumber.Value(encryptionEngine.seqNum)
      modifies `emitted, `datagrams, `sent, encryptionEngine.seqNum
      ensures Valid() && emitted == old(emitted) + [w]
      ensures if status == Done then sent == old(sent) + [w.Octets()] && datagrams == old(datagrams) + [[w]]
              else sent == old(sent) && datagrams == old(datagrams)
      ensures faultless ==> status == Done
    {
      hide NumbersValid, EncodeFlight, FlightWellFormed, Slack, Sealed.Octets, Datagram, SequenceNumber.Value;
      TakeNumber(encryptionEngine, w);
      status := SendAlone(w);
    }

    /** The record, with the number its engine is about to give out, behind the flight. */
    method PutRecord(data: seq<byte>, contentType: byte)
      requires txBufferLen + RECORD_HEADER_LEN + |data| <= txBuffer.Length
      requires encryptionEngine.seqNum.Length == 6 && encryptionEngine.seqNum != txBuffer
      modifies txBuffer
      ensures Front(txBufferLen) == old(Front(txBufferLen))
      ensures txBuffer[txBufferLen..txBufferLen + RECORD_HEADER_LEN + |data|]
        == RecordBytes(NewRecord(data, contentType), SequenceNumber.Value(encryptionEngine.seqNum), data)
    {
      var header := [contentType] + Store16(TranslateVersion(encryptionEngine.version))
                    + Store16(encryptionEngine.epoch) + encryptionEngine.seqNum[..] + Store16(|data|);
      NumberOctets(encryptionEngine.seqNum[..]);
      assert header + data
        == RecordBytes(NewRecord(data, contentType), SequenceNumber.Value(encryptionEngine.seqNum), data);
      Write(txBuffer, txBufferLen, header + data);
    }

    /** One record as a datagram of its own. */
    method SendAlone(ghost w: Sealed) returns (status: TxStatus)
      requires LogValid() && w.record.WireSized() && |w.body| < 0x1_0000
      requires txBufferLen + |w.Octets()| <= txBuffer.Length
      requires txBuffer[txBufferLen..txBufferLen + |w.Octets()|] == w.Octets()
      modifies `datagrams, `sent
      ensures LogValid()
      ensures if status == Done then sent == old(sent) + [w.Octets()] && datagrams == old(datagrams) + [[w]]
              else sent == old(sent) && datagrams == old(datagrams)
      ensures faultless ==> status == Done
    {
      StoredHeader(txBuffer[..], txBufferLen, w.record, w.seqNum, w.body);
      var n := Load16(txBuffer[..], txBufferLen + 11) + RECORD_HEADER_LEN;
      var accepted: bool := *;
      var ok := faultless || accepted;
      status := if ok then Done else SendFailed;
      if ok {
        sent := sent + [txBuffer[txBufferLen..txBufferLen + n]];
        datagrams := datagrams + [[w]];
        assert Datagram([w]) == w.Octets() by { assert [w][..0] == [] && Datagram([]) == []; }
      }
    }

    // ----- The timer -----

    ghost function Timer(): Retransmission.Timer
      reads `retransmitCount, `retransmitTimeout, `retransmitTimestamp
    {
      Retransmission.Timer(retransmitCount, retransmitTimeout, retransmitTimestamp)
    }

    /** An unfinished flight of this side has waited for its answer as long as the timer allows. */
    predicate Overdue(now: nat)
      reads `state, `txBufferLen, `retransmitTimestamp, `retransmitTimeout
    {
      && state != STATE_APPLICATION_DATA && txBufferLen > 0
      && Retransmission.Expired(now, retransmitTimestamp, retransmitTimeout)
    }

    /** dtlsTick: an overdue flight is sent again, whole and in order, as long as it has gone out fewer
        than 5 times, with the timeout doubled up to a minute whether that works or not; after that the
        handshake is given up. The timer moves as the value-level timer does on the same event; outcome
        and ok say which way this call went. */
    method Tick(now: nat)
      returns (result: TickResult, ghost outcome: Retransmission.Outcome, ghost ok: bool, ghost ws: seq<Sealed>)
      requires Valid() && CanSend()
      modifies `txBufferPos, `txDatagramLen, `packing, `emitted, `datagrams, `sent, txBuffer
      modifies `retransmitCount, `retransmitTimeout, `retransmitTimestamp
      modifies encryptionEngine.seqNum, prevEncryptionEngine.seqNum
      ensures Valid()
      ensures if state != STATE_APPLICATION_DATA && txBufferLen > 0
              then (Timer(), outcome) == Retransmission.OnEvent(old(Timer()), Retransmission.Tick(now, ok))
              else Timer() == old(Timer()) && outcome == Retransmission.Idle
      ensures CanSend() && (Sure() && outcome.Attempt? ==> ok)
      ensures emitted == old(emitted) + ws && (!outcome.Attempt? ==> ws == [])
      ensures Begun(ws) && Flatten(datagrams) <= old(Flatten(datagrams)) + ws
      ensures outcome == Retransmission.Attempt(true) ==> Expanded(ws, |flight|)
      ensures result == GivenUp <==> outcome == Retransmission.TimedOut
      ensures result.Going? && result.status != Done <==> outcome == Retransmission.Attempt(false)
      ensures result == GivenUp <==> old(Overdue(now)) && old(retransmitCount) >= 5
      ensures old(Overdue(now)) && old(retransmitCount) < 5 ==>
        && retransmitTimeout == (if 2 * old(retransmitTimeout) < 60000 then 2 * old(retransmitTimeout) else 60000)
        && (if result == Going(Done)
            then
              && retransmitCount == old(retransmitCount) + 1 && retransmitTimestamp == now
              && Expanded(ws, |flight|) && Flatten(datagrams) == old(Flatten(datagrams)) + ws
            else retransmitCount == old(retransmitCount) && retransmitTimestamp == old(retransmitTimestamp))
        && (old(Sure()) ==> result == Going(Done))
      ensures !(old(Overdue(now)) && old(retransmitCount) < 5) ==>
        ws == [] && Timer() == old(Timer()) && sent == old(sent) && datagrams == old(datagrams)
    {
      hide Valid, CanSend, Sendable, Front, Bounded, Flatten, Expanded, Begun, FlightFits, TheFrame,
           Retransmission.Expired;
      NothingBegun();
      result, outcome, ok, ws := Going(Done), Retransmission.Idle, false, [];
      if state != STATE_APPLICATION_DATA {
        if txBufferLen > 0 {
          if Retransmission.Expired(now, retransmitTimestamp, retransmitTimeout) {
            if retransmitCount < Retransmission.MAX_RETRIES {
              var status;
              status, ws := SendFlight(now);
              result := Going(status);
              ok := status == Done;
              outcome := Retransmission.Attempt(ok);
              retransmitTimeout := Retransmission.Doubled(retransmitTimeout);
            } else {
              result := GivenUp;
              outcome := Retransmission.TimedOut;
            }
          }
        }
      }
    }

    /** A flight is complete when the client or server reaches one of these states. */
    predicate StartsFlight() reads `state {
      match entity
      case Client => state == STATE_CLIENT_HELLO || state == STATE_CLIENT_FINISHED
      case Server => state == STATE_SERVER_HELLO_DONE || state == STATE_SERVER_FINISHED
    }

    predicate StartsStateless() reads `state {
      entity == Server && state == STATE_HELLO_VERIFY_REQUEST
    }

    /** The flight once the record has been written, and how much of the buffer it takes. */
    ghost function FlightWith(data: seq<byte>, contentType: byte): seq<Record>
      reads `encryptionEngine, `flight
    {
      if IsBuffered(contentType) then flight + [NewRecord(data, contentType)] else flight
    }

    function LengthWith(length: nat, contentType: byte): nat
      reads `txBufferLen
    {
      if IsBuffered(contentType) then txBufferLen + RECORD_HEADER_LEN + length else txBufferLen
    }

    /** The code does not refuse the record for want of room. */
    ghost predicate Writable(length: nat, contentType: byte)
      requires encryptionEngine.cipher.suite.WellFormed()
      reads `encryptionEngine, `txBufferLen
    {
      if IsBuffered(contentType) then txBufferLen + RECORD_HEADER_LEN + length <= txBufferSize else FitsAlone(length)
    }

    /** The records, as a flight of the given length, have gone out as ws. */
    ghost predicate WentOut(ws: seq<Sealed>, records: seq<Record>, flightLen: nat)
      requires Sendable()
      reads `encryptionEngine, `prevEncryptionEngine, `pmtu
    {
      var sizes := FrameBehind(flightLen).sizes;
      && (forall k :: 0 <= k < |records| ==> Sized(records[k], sizes))
      && Plain(ws) == ExpandFlight(records, sizes)
      && SealedRun(ws, encryptionEngine, prevEncryptionEngine)
    }

    lemma ExpandedWentOut(ws: seq<Sealed>)
      requires Sendable() && Expanded(ws, |flight|)
      ensures WentOut(ws, flight, txBufferLen)
    {
      assert flight[..|flight|] == flight;
    }

    /** dtlsWriteProtocolData: a handshake or ChangeCipherSpec record joins the flight, any other record
        goes out alone, numbered and protected. In the states that end a flight of this side the whole
        flight goes out behind it, and counter and timeout start anew; a stateless flight is not kept.
        Without faults this works exactly when there is room for it. */
    method WriteProtocolData(data: seq<byte>, contentType: byte, now: nat)
      returns (status: TxStatus, ghost alone: seq<Sealed>, ghost ws: seq<Sealed>)
      requires Valid() && Sendable() && |data| < 0x1_0000 && (!IsBuffered(contentType) ==> AloneClear(|data|))
      requires contentType == TYPE_HANDSHAKE ==> HoldsMessage(NewRecord(data, contentType))
      requires StartsFlight() || StartsStateless() ==> ReadyWith(data, contentType)
      modifies `txBufferLen, `flight, `txBufferPos, `txDatagramLen, `packing, `emitted, `datagrams, `sent, txBuffer
      modifies `retransmitCount, `retransmitTimeout, `retransmitTimestamp
      modifies encryptionEngine.seqNum, prevEncryptionEngine.seqNum
      ensures Valid() && emitted == old(emitted) + alone + ws
      ensures status == Done ==> Flatten(datagrams) == old(Flatten(datagrams)) + alone + ws
      ensures status == Done ==>
        if IsBuffered(contentType) then alone == []
        else |alone| == 1 && alone[0].record == NewRecord(data, contentType)
             && SealedBy(alone[0], encryptionEngine.cipher)
      ensures status == Done && (StartsFlight() || StartsStateless()) ==>
        WentOut(ws, old(FlightWith(data, contentType)), old(LengthWith(|data|, contentType)))
      ensures !StartsFlight() && !StartsStateless() ==> ws == [] && Timer() == old(Timer())
      ensures status == Done && !StartsFlight() && !StartsStateless() ==>
        if IsBuffered(contentType) then sent == old(sent) else sent == old(sent) + [alone[0].Octets()]
      ensures status == Done && StartsFlight() ==>
        Timer() == Retransmission.FlightStart(old(retransmitTimestamp), now, true) && CanSend()
      ensures status == Done && StartsStateless() ==> Timer() == old(Timer()).(count := 1, timestamp := now)
      ensures StartsStateless() && IsBuffered(contentType) && old(Writable(|data|, contentType)) ==>
        flight == [] && txBufferLen == 0
      ensures status == Done ==>
        if StartsStateless() then flight == [] && txBufferLen == 0
        else
          flight == old(FlightWith(data, contentType)) && txBufferLen == old(LengthWith(|data|, contentType))
      ensures faultless ==>
        (status == Done <==>
         && old(Writable(|data|, contentType))
         && (StartsFlight() || StartsStateless() ==>
               FlightFits(old(FlightWith(data, contentType)), FrameBehind(old(LengthWith(|data|, contentType))))))
      ensures StartsFlight() || StartsStateless() <==>
        match entity case Client => state in {1, 21} case Server => state in {4, 15, 25}
    {
      hide *;
      alone, ws := [], [];
      WellFormedNow();
      ReadyWithMeans(data, contentType);
      ghost var before, length := flight, txBufferLen;
      ghost var out, log := sent, datagrams;
      WithMeans(data, contentType);
      FlightStates();
      status, alone := WriteRecord(data, contentType);
      if status != Done {
        return;
      }
      WrittenReady(before, length, data, contentType);
      LoggedAlone(out, log, alone, data, contentType);
      ghost var ok;
      status, ok, ws := FlightDue(now);
    }

    /** If the record can be written, the flight with it can be sent. */
    ghost predicate ReadyWith(data: seq<byte>, contentType: byte)
      requires Sendable()
      reads `encryptionEngine, `prevEncryptionEngine, `flight, `pmtu, `txBufferLen
    {
      if !IsBuffered(contentType) then Ready(flight, txBufferLen)
      else
        var length := txBufferLen + RECORD_HEADER_LEN + |data|;
        length <= txBufferSize ==> Ready(flight + [NewRecord(data, contentType)], length)
    }

    method FlightDue(now: nat) returns (status: TxStatus, ghost ok: bool, ghost ws: seq<Sealed>)
      requires Valid() && (StartsFlight() || StartsStateless() ==> CanSend())
      modifies `txBufferLen, `flight, `txBufferPos, `txDatagramLen, `packing, `emitted, `datagrams, `sent, txBuffer
      modifies `retransmitCount, `retransmitTimeout, `retransmitTimestamp
      modifies encryptionEngine.seqNum, prevEncryptionEngine.seqNum
      ensures Valid() && (ok <==> status == Done)
      ensures StartsFlight() ==> Timer() == Retransmission.FlightStart(old(retransmitTimestamp), now, ok)
      ensures StartsStateless() && ok ==> Timer() == old(Timer()).(count := 1, timestamp := now)
      ensures if StartsStateless() then txBufferLen == 0 && flight == []
              else flight == old(flight) && txBufferLen == old(txBufferLen)
      ensures !StartsFlight() && !StartsStateless() ==>
        && ws == [] && Timer() == old(Timer()) && status == Done
        && sent == old(sent) && datagrams == old(datagrams)
      ensures emitted == old(emitted) + ws
      ensures StartsFlight() ==> CanSend()
      ensures StartsFlight() || StartsStateless() ==>
        && (status == Done ==> Flatten(datagrams) == old(Flatten(datagrams)) + ws)
        && (status == Done ==> WentOut(ws, old(flight), old(txBufferLen)))
        && (faultless ==> (status == Done <==> FlightFits(old(flight), FrameBehind(old(txBufferLen)))))
    {
      hide Valid, Front, Bounded, Flatten, Expanded, Begun, Ready, WentOut, FlightFits, FrameBehind, Pmtu;
      ws := [];
      if StartsFlight() {
        retransmitCount := 0;
        retransmitTimeout := Retransmission.INIT_TIMEOUT;
        status, ws := SendFlight(now);
        ok := status == Done;
        if ok { ExpandedWentOut(ws); }
        return;
      }
      if StartsStateless() {
        retransmitCount := 0;
        status, ws := SendFlight(now);
        ok := status == Done;
        if ok { ExpandedWentOut(ws); }
        DropFlight();
        return;
      }
      status, ok := Done, true;
    }

    /** Behind the ClientHello, HelloVerifyRequest, ServerHelloDone, and both Finished messages. */
    lemma FlightStates()
      ensures StartsFlight() || StartsStateless() <==>
        match entity case Client => state in {1, 21} case Server => state in {4, 15, 25}
    {
    }

    /** The flight and the length that a record leaves behind, case by case. */
    lemma WithMeans(data: seq<byte>, contentType: byte)
      requires Sendable()
      ensures if IsBuffered(contentType)
        then
          && FlightWith(data, contentType) == flight + [NewRecord(data, contentType)]
          && LengthWith(|data|, contentType) == txBufferLen + RECORD_HEADER_LEN + |data|
          && (Writable(|data|, contentType) <==> txBufferLen + RECORD_HEADER_LEN + |data| <= txBufferSize)
        else
          && FlightWith(data, contentType) == flight && LengthWith(|data|, contentType) == txBufferLen
          && (Writable(|data|, contentType) <==> FitsAlone(|data|))
    {
    }

    /** What has gone out so far, with the record behind it. */
    lemma LoggedAlone(before: seq<seq<byte>>, log: seq<seq<Sealed>>, alone: seq<Sealed>, data: seq<byte>,
                      contentType: byte)
      requires if IsBuffered(contentType) then alone == [] && datagrams == log
        else SentAlone(alone, data, contentType, before, log)
      ensures Flatten(datagrams) == Flatten(log) + alone
      ensures !IsBuffered(contentType) ==>
        |alone| == 1 && alone[0].record == NewRecord(data, contentType) && SealedBy(alone[0], encryptionEngine.cipher)
    {
      hide SealedBy;
      if !IsBuffered(contentType) {
        assert datagrams[..|datagrams| - 1] == log;
      }
    }

    lemma WellFormedNow()
      requires Sendable()
      ensures encryptionEngine.cipher.suite.WellFormed() && prevEncryptionEngine.cipher.suite.WellFormed()
    {
    }

    lemma ReadyWithMeans(data: seq<byte>, contentType: byte)
      requires Sendable() && (StartsFlight() || StartsStateless() ==> ReadyWith(data, contentType))
      ensures StartsFlight() || StartsStateless() ==>
        if !IsBuffered(contentType) then Ready(flight, txBufferLen)
        else
          txBufferLen + RECORD_HEADER_LEN + |data| <= txBufferSize ==>
          Ready(flight + [NewRecord(data, contentType)], txBufferLen + RECORD_HEADER_LEN + |data|)
    {
      hide Ready;
    }

    lemma WrittenReady(before: seq<Record>, length: nat, data: seq<byte>, contentType: byte)
      requires Sendable()
      requires StartsFlight() || StartsStateless() ==>
        if !IsBuffered(contentType) then Ready(before, length)
        else
          length + RECORD_HEADER_LEN + |data| <= txBufferSize ==>
          Ready(before + [NewRecord(data, contentType)], length + RECORD_HEADER_LEN + |data|)
      requires if IsBuffered(contentType) then flight == before + [NewRecord(data, contentType)]
        else flight == before && txBufferLen == length
      requires IsBuffered(contentType) ==> txBufferLen == length + RECORD_HEADER_LEN + |data| <= txBufferSize
      ensures StartsFlight() || StartsStateless() ==> CanSend()
    {
      hide Ready;
    }

    /** A server takes over the record numbering of the ClientHello it answers; the account of
        numbers given out starts over. */
    method Rebase(number: nat)
      requires Valid() && number < SequenceNumber.MODULUS
      modifies encryptionEngine.seqNum, `emitted, `base, `prevBase
      ensures Valid() && emitted == []
      ensures SequenceNumber.Value(encryptionEngine.seqNum) == number
    {
      hide Store48, Load48, FlightWellFormed, EncodeFlight, Datagram, SequenceNumber.Value, LogValid;
      NumberStored(number);
      SequenceNumber.Store(encryptionEngine.seqNum, Store48(number));
      emitted := [];
      base, prevBase := number, SequenceNumber.Value(prevEncryptionEngine.seqNum);
    }

    /** The flight is complete on the other side, or needs no retransmission: forget it. */
    method DropFlight()
      requires Valid()
      modifies `txBufferLen, `flight
      ensures Valid() && txBufferLen == 0 && flight == []
    {
      txBufferLen := 0;
      flight := [];
      assert txBuffer[..0] == [];
    }
  }

  /** No MAC, nonce, tag or block is longer than those of the cipher suites of the library. */
  predicate SmallParts(suite: Suite) {
    suite.macLen <= 64 && suite.recordIvLen <= 16 && suite.authTagLen <= 16 && suite.blockSize <= 16
  }

  lemma SmallOverhead(suite: Suite)
    requires suite.WellFormed() && SmallParts(suite)
    ensures forall n :: Overhead(suite, n) <= 112
  {
  }

  /** Where an emission started: the front of the buffer, the datagrams sent, the records
      emitted, and those packed. */
  datatype Start = Start(front: seq<byte>, sent: seq<seq<byte>>, emitted: seq<Sealed>, out: seq<Sealed>)

  lemma SnocAssociates(st: Start, ws: seq<Sealed>, w: Sealed)
    ensures st.emitted + (ws + [w]) == (st.emitted + ws) + [w]
    ensures st.out + (ws + [w]) == (st.out + ws) + [w]
  {
  }

  lemma OneEpoch(ws: seq<Sealed>, version: nat, epoch: nat, fs: seq<Fragment>, cur: Engine, prev: Engine)
    requires Plain(ws) <= FragmentRecords(version, epoch, fs)
    requires AllSealedBy(ws, if epoch == cur.epoch then cur.cipher else prev.cipher)
    ensures SealedRun(ws, cur, prev)
  {
    hide SealedBy, Encode;
    forall k | 0 <= k < |ws| ensures ws[k].record.epoch == epoch {
      assert Plain(ws)[k] == FragmentRecords(version, epoch, fs)[k];
    }
  }

  ghost predicate AllSealedBy(ws: seq<Sealed>, c: Cipher) {
    forall k :: 0 <= k < |ws| ==> SealedBy(ws[k], c)
  }

  lemma RecordsSnoc(ws: seq<Sealed>, w: Sealed, c: Cipher)
    requires AllSealedBy(ws, c) && SealedBy(w, c)
    ensures Plain(ws + [w]) == Plain(ws) + [w.record] && AllSealedBy(ws + [w], c)
  {
    hide SealedBy;
  }

  lemma FragmentRecordsSnoc(version: nat, epoch: nat, fs: seq<Fragment>, f: Fragment)
    ensures FragmentRecords(version, epoch, fs + [f])
      == FragmentRecords(version, epoch, fs) + [Record(TYPE_HANDSHAKE, version, epoch, Encode(f))]
  {
  }

  lemma FragmentRecordsPrefix(version: nat, epoch: nat, fs: seq<Fragment>, gs: seq<Fragment>)
    ensures FragmentRecords(version, epoch, fs) <= FragmentRecords(version, epoch, fs + gs)
  {
  }

  /** done are the cuts before offset; more says that there is a cut at offset to come. */
  ghost predicate CutsLeft(m: Reassembly.Message, size: nat, done: seq<Fragment>, offset: nat, more: bool)
    requires size > 0 && offset <= |m.body|
  {
    Cuts(m, size) == done + if more then CutsFrom(m, size, offset) else []
  }

  /** What is left to cut after the fragment at offset. */
  lemma NextCut(m: Reassembly.Message, size: nat, done: seq<Fragment>, offset: nat, len: nat)
    requires size > 0 && offset <= |m.body| && CutsLeft(m, size, done, offset, true)
    requires len == if |m.body| - offset < size then |m.body| - offset else size
    ensures Cut(m, offset, size) == Fragment(m.msgType, |m.body|, m.msgSeq, offset, m.body[offset..offset + len])
    ensures CutsLeft(m, size, done + [Cut(m, offset, size)], offset + len, offset + len < |m.body|)
  {
    var f := Cut(m, offset, size);
    if offset + len < |m.body| {
      assert CutsFrom(m, size, offset) == [f] + CutsFrom(m, size, offset + len);
    }
  }

  lemma PlainSealed(w: Sealed, c: Cipher)
    requires Lawful(c) && w.body == w.record.payload && w.record.WireSized()
    ensures w.Octets() == RecordBytes(w.record, w.seqNum, w.record.payload)
    ensures c.suite.Unprotected() ==> SealedBy(w, c) && Growth(c.suite, |w.body|) == 0
    ensures RECORD_HEADER_LEN == 13
  {
  }

  lemma SealLaw(c: Cipher, h: seq<byte>, k: nat, p: seq<byte>)
    requires Lawful(c)
    ensures c.dec(h, c.enc(h, k, p)) == Opened(p)
    ensures |c.enc(h, k, p)| == |p| + Growth(c.suite, |p|)
  {
  }

  lemma WrapNext(n: nat)
    ensures (Wrap(n) + 1) % SequenceNumber.MODULUS == Wrap(n + 1)
  {
  }

  // ----- Octets of stored records -----

  lemma StoredHeader(s: seq<byte>, p: nat, r: Record, seqNum: nat, body: seq<byte>)
    requires r.WireSized() && |body| < 0x1_0000
    requires p + RECORD_HEADER_LEN + |body| <= |s|
    requires s[p..p + RECORD_HEADER_LEN + |body|] == RecordBytes(r, seqNum, body)
    ensures s[p] == r.contentType
    ensures Load16(s, p + 1) == r.version
    ensures Load16(s, p + 3) == r.epoch
    ensures Load16(s, p + 11) == |body|
  {
    assert s[p..p + RECORD_HEADER_LEN] == s[p..p + RECORD_HEADER_LEN + |body|][..RECORD_HEADER_LEN];
    HeaderReadsBack(s, p, r, seqNum, body);
  }

  /** The fields of a record stored in the front of a buffer. */
  lemma StoredFields(s: seq<byte>, n: nat, p: nat, r: Record)
    requires n <= |s| && StoredAt(s[..n], p, r) && r.WireSized()
    ensures p + 13 <= |s| && s[p] == r.contentType && Load16(s, p + 1) == r.version
    ensures Load16(s, p + 3) == r.epoch && Load16(s, p + 11) == |r.payload|
  {
    assert s[p..p + RECORD_HEADER_LEN + |r.payload|] == s[..n][p..p + RECORD_HEADER_LEN + |r.payload|];
    StoredHeader(s, p, r, 0, r.payload);
    hide Load16, RecordBytes;
  }

  /** The length field of a stored sealed record. */
  lemma StoredSealed(s: seq<byte>, p: nat, w: Sealed)
    requires w.record.WireSized() && |w.body| < 0x1_0000
    requires p + |w.Octets()| <= |s| && s[p..p + |w.Octets()|] == w.Octets()
    ensures p + 13 <= |s| && Load16(s, p + 11) == |w.body| && RECORD_HEADER_LEN == 13
  {
    StoredHeader(s, p, w.record, w.seqNum, w.body);
  }

  /** The octets of a stored message that fragmentation copies into each fragment header. */
  lemma MessageOctets(s: seq<byte>, at: nat, m: Reassembly.Message)
    requires m.WireSized()
    requires at + HEADER_LEN + |m.body| <= |s|
    requires s[at..at + HEADER_LEN + |m.body|] == Encode(m.Whole())
    ensures s[at] == m.msgType
    ensures Load24(s, at + 1) == |m.body|
    ensures s[at + 4..at + 6] == Store16(m.msgSeq)
  {
    var f := m.Whole();
    var e := Encode(f);
    forall k | 0 <= k < HEADER_LEN ensures s[at + k] == Header(f)[k] {
      assert s[at..at + HEADER_LEN + |m.body|][k] == s[at + k] && e[k] == Header(f)[k];
    }
    HeaderLoads(s, at, f);
    assert Header(f)[4..6] == Store16(f.msgSeq);
    assert s[at + 4 + 0] == Header(f)[4] && s[at + 5] == Header(f)[5];
    assert Header(f)[4..6][0] == Header(f)[4] && Header(f)[4..6][1] == Header(f)[5];
    hide Header, Store16, Encode;
  }

  /** The fragment header written over a stored message is the header of the fragment. */
  lemma FragmentOctets(s: seq<byte>, at: nat, m: Reassembly.Message, f: Fragment, h: seq<byte>)
    requires m.WireSized()
    requires at + HEADER_LEN + |m.body| <= |s|
    requires s[at..at + HEADER_LEN + |m.body|] == Encode(m.Whole())
    requires f.msgType == m.msgType && f.length == |m.body| && f.msgSeq == m.msgSeq
    requires h == [s[at]] + Store24(|m.body|) + s[at + 4..at + 6] + Store24(f.offset) + Store24(|f.data|)
    ensures h == Header(f)
  {
    MessageOctets(s, at, m);
  }

  lemma BodySlice(s: seq<byte>, at: nat, m: Reassembly.Message, offset: nat, n: nat)
    requires at + HEADER_LEN + |m.body| <= |s| && offset + n <= |m.body|
    requires s[at..at + HEADER_LEN + |m.body|] == Encode(m.Whole())
    ensures s[at + HEADER_LEN + offset..at + HEADER_LEN + offset + n] == m.body[offset..offset + n]
  {
    SubSlice(s, at, at + HEADER_LEN + |m.body|, HEADER_LEN + offset, HEADER_LEN + offset + n);
    SubSlice(Encode(m.Whole()), HEADER_LEN, HEADER_LEN + |m.body|, offset, offset + n);
    assert Encode(m.Whole())[HEADER_LEN..HEADER_LEN + |m.body|] == m.body;
  }

  /** Both headers written at pos, then n octets moved behind them from further down. */
  lemma FormattedOctets(before: seq<byte>, s1: seq<byte>, s2: seq<byte>, pos: nat,
                        h: seq<byte>, fh: seq<byte>, source: nat, data: seq<byte>)
    requires |h| == RECORD_HEADER_LEN && |fh| == HEADER_LEN
    requires pos + |h| + |fh| + |data| <= |before| && source + |data| <= pos
    requires s1 == Overwritten(before, pos, h + fh)
    requires before[source..source + |data|] == data
    requires s2 == Moved(s1, pos + RECORD_HEADER_LEN + HEADER_LEN, source, |data|)
    ensures s2[..pos] == before[..pos]
    ensures s2[pos..pos + RECORD_HEADER_LEN + (HEADER_LEN + |data|)] == h + (fh + data)
  {
    var dst := pos + RECORD_HEADER_LEN + HEADER_LEN;
    assert s1[source..source + |data|] == before[source..source + |data|];
    assert s2[..dst] == before[..pos] + (h + fh);
    assert s2[dst..dst + |data|] == data;
    assert s2[pos..dst + |data|] == s2[pos..dst] + s2[dst..dst + |data|];
    assert s2[pos..dst] == h + fh;
  }

  /** A position in front of the end that is the start of record i. */
  lemma RecordAt(front: seq<byte>, flight: seq<Record>, i: nat, pos: nat)
    requires FlightWellFormed(flight) && front == EncodeFlight(flight) && i <= |flight|
    requires pos == |EncodeFlight(flight[..i])| < |front|
    ensures i < |flight| && StoredAt(front, pos, flight[i]) && flight[i].WireSized() && flight[i].version < 0x1_0000
    ensures flight[i].contentType == TYPE_HANDSHAKE ==>
      && |flight[i].payload| >= HEADER_LEN && HoldsMessage(flight[i])
      && Holds(front, pos + RECORD_HEADER_LEN, MessageOf(flight[i]))
  {
    assert flight[..|flight|] == flight;
    FlightSplit(flight, i);
    var r := flight[i];
    if r.contentType == TYPE_HANDSHAKE {
      PayloadHolds(front, pos, r);
    }
  }

  /** The message of a stored handshake record, found behind the record header. */
  lemma PayloadHolds(s: seq<byte>, pos: nat, r: Record)
    requires StoredAt(s, pos, r) && r.WireSized() && HoldsMessage(r)
    ensures Holds(s, pos + RECORD_HEADER_LEN, MessageOf(r))
  {
    var n := RECORD_HEADER_LEN + |r.payload|;
    SubSlice(s, pos, pos + n, RECORD_HEADER_LEN, n);
    assert Buffered(r)[RECORD_HEADER_LEN..n] == r.payload;
  }

  /** A copy of a stored record, given a number. */
  lemma Renumbered(s: seq<byte>, s1: seq<byte>, s2: seq<byte>, pos: nat, to: nat, r: Record, seqNum: nat)
    requires var n := RECORD_HEADER_LEN + |r.payload|;
      && pos + n <= to && to + n <= |s|
      && s[pos..pos + n] == Buffered(r)
      && s1 == Moved(s, to, pos, n) && s2 == Overwritten(s1, to + 5, Store48(seqNum))
    ensures s2[..to] == s[..to]
    ensures s2[to..to + RECORD_HEADER_LEN + |r.payload|] == RecordBytes(r, seqNum, r.payload)
  {
    var n := RECORD_HEADER_LEN + |r.payload|;
    assert s1[to..to + n] == Buffered(r);
    var front := [r.contentType] + Store16(r.version) + Store16(r.epoch);
    assert Buffered(r) == front + Store48(0) + (Store16(|r.payload|) + r.payload);
    assert s1[to..to + 5] == front by { SubSlice(s1, to, to + n, 0, 5); }
    assert s1[to + 11..to + n] == Store16(|r.payload|) + r.payload by { SubSlice(s1, to, to + n, 11, n); }
    assert s2[to..to + n] == s1[to..to + 5] + Store48(seqNum) + s1[to + 11..to + n];
  }

  /** A datagram of one record. */
  lemma SingleSealed(w: Sealed)
    requires w.record.WireSized() && |w.body| < 0x1_0000
    ensures Datagram([w]) == w.Octets()
    ensures w.record.contentType != TYPE_HANDSHAKE ==> SingleOther(Datagram([w]))
  {
    var d := w.Octets();
    assert [w][..0] == [] && Datagram([]) == [];
    assert d[0..0 + |d|] == d;
    StoredHeader(d, 0, w.record, w.seqNum, w.body);
  }

  /** Six octets are the big-endian form of their value. */
  lemma NumberOctets(b: seq<byte>)
    requires |b| == 6
    ensures Store48(Load48(b, 0)) == b
  {
    var hi, lo := Load24(b, 0), Load24(b, 3);
    assert Load48(b, 0) / 0x100_0000 == hi;
    Octets24(b[0], b[1], b[2]);
    LowOctets(hi, b[3], b[4], b[5]);
  }

  lemma DatagramGrows(s: seq<byte>, lo: nat, pos: nat, ws: seq<Sealed>, w: Sealed)
    requires lo <= pos && pos + |w.Octets()| <= |s|
    requires s[lo..pos] == Datagram(ws) && s[pos..pos + |w.Octets()|] == w.Octets()
    ensures s[lo..pos + |w.Octets()|] == Datagram(ws + [w])
  {
    assert (ws + [w])[..|ws|] == ws;
    SliceJoin(s, lo, pos, pos + |w.Octets()|);
  }

  lemma SubSlice(s: seq<byte>, lo: nat, hi: nat, i: nat, j: nat)
    requires lo <= hi <= |s| && i <= j <= hi - lo
    ensures s[lo + i..lo + j] == s[lo..hi][i..j]
  {
    var t := s[lo..hi];
    forall k | 0 <= k < j - i ensures t[i..j][k] == s[lo + i..lo + j][k] {
      assert t[i + k] == s[lo + (i + k)];
    }
  }

  lemma PrefixKept(s: seq<byte>, t: seq<byte>, m: nat, n: nat)
    requires m <= n <= |s| && n <= |t| && s[..n] == t[..n]
    ensures s[..m] == t[..m] && s[m..n] == t[m..n]
  {
    assert s[..n][..m] == t[..n][..m];
    assert s[..n][m..] == t[..n][m..];
  }

  lemma StoredParts(s: seq<byte>, p: nat, r: Record, seqNum: nat, body: seq<byte>)
    requires p + RECORD_HEADER_LEN + |body| <= |s|
    requires s[p..p + RECORD_HEADER_LEN + |body|] == RecordBytes(r, seqNum, body)
    ensures s[p..p + 11] == RecordHeader(r, seqNum)
    ensures s[p + RECORD_HEADER_LEN..p + RECORD_HEADER_LEN + |body|] == body
  {
    var t := s[p..p + RECORD_HEADER_LEN + |body|];
    assert s[p..p + 11] == t[..11];
    assert s[p + RECORD_HEADER_LEN..p + RECORD_HEADER_LEN + |body|] == t[RECORD_HEADER_LEN..];
  }

  lemma ReplacedBody(s: seq<byte>, t: seq<byte>, p: nat, r: Record, seqNum: nat, body: seq<byte>, other: seq<byte>)
    requires p + RECORD_HEADER_LEN + |body| <= |s| && p + RECORD_HEADER_LEN + |other| <= |s|
    requires s[p..p + RECORD_HEADER_LEN + |body|] == RecordBytes(r, seqNum, body)
    requires t == s[..p + 11] + (Store16(|other|) + other) + s[p + RECORD_HEADER_LEN + |other|..]
    ensures t[p..p + RECORD_HEADER_LEN + |other|] == RecordBytes(r, seqNum, other)
    ensures t[..p] == s[..p]
  {
    StoredParts(s, p, r, seqNum, body);
    assert t[p..p + 11] == s[p..p + 11];
    assert t[p..p + RECORD_HEADER_LEN + |other|] == t[p..p + 11] + (Store16(|other|) + other);
  }
}
