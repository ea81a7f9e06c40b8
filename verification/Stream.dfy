/** Application data as a byte stream: the chunking of tlsWrite over the record layer of a
    stream transport, and the delivery loop of tlsRead. */
module Stream {
  import opened Bytes
  import opened ReceiveSpec

  const STATE_CLOSING: nat := 31
  const STATE_CLOSED: nat := 32

  function Min(a: nat, b: nat): nat { if a <= b then a else b }

  function Concat(s: seq<seq<byte>>): seq<byte> {
    if s == [] then [] else Concat(s[..|s| - 1]) + s[|s| - 1]
  }

  // ----- Sending -----

  /** Sizes that limit a record: the buffer, what was negotiated, and, for protected records,
      what the peer is willing to receive. splits stands for CBC under TLS 1.0 or earlier. */
  datatype Limits = Limits(txBufferMaxLen: nat, maxFragLen: nat, recordSizeLimit: nat, engineLimit: nat,
                           protected: bool, splits: bool)
  {
    predicate Positive() {
      txBufferMaxLen > 0 && maxFragLen > 0 && recordSizeLimit > 0 && engineLimit > 0
    }

    /** The payload of one record. */
    function RecordMax(): (m: nat)
      ensures m <= 16384 && m <= maxFragLen && (protected ==> m <= engineLimit)
      ensures m == 16384 || m == maxFragLen || (protected && m == engineLimit)
    {
      var n := Min(MAX_RECORD_LENGTH, maxFragLen);
      if protected then Min(n, engineLimit) else n
    }

    /** How much of the buffer goes into the next record. */
    function PartLen(left: nat): (n: nat)
      ensures n <= left && n <= RecordMax()
      ensures Positive() && left > 0 ==> n > 0
    {
      Min(left, RecordMax())
    }

    /** How many octets tlsWrite passes on at a time. */
    function ChunkLen(left: nat, lastRecordLen: nat, first: bool): (n: nat)
      ensures n <= left || n == 1
      ensures Positive() && left > 0 ==> 0 < n <= left && n <= txBufferMaxLen && n <= recordSizeLimit
    {
      if splits && lastRecordLen != 1 && first then 1
      else Min(Min(Min(Min(left, txBufferMaxLen), MAX_RECORD_LENGTH), maxFragLen), recordSizeLimit)
    }

    /** Where records are not split, a chunk is as long as data and limits allow, and no longer. */
    lemma ChunkFull(left: nat, lastRecordLen: nat, first: bool, n: nat)
      requires !(splits && first && lastRecordLen != 1)
      ensures n <= ChunkLen(left, lastRecordLen, first) <==>
        n <= left && n <= txBufferMaxLen && n <= 16384 && n <= maxFragLen && n <= recordSizeLimit
    {
    }

    /** What the interface lets a caller configure and the peer negotiate. */
    predicate Configurable() {
      && txBufferMaxLen >= 512 && maxFragLen in {512, 1024, 2048, 4096, 16384}
      && 64 <= recordSizeLimit <= MAX_RECORD_LENGTH && engineLimit == recordSizeLimit
    }

    /** The length of the last chunk when so many octets are written. */
    function LastChunk(left: nat, lastRecordLen: nat, first: bool): nat
      requires Positive()
    {
      if left == 0 then lastRecordLen
      else
        var n := ChunkLen(left, lastRecordLen, first);
        LastChunk(left - n, n, false)
    }

    /** The chunk left over from a call that failed is the one a call with this data begins
        with. */
    predicate Resumes(chunk: seq<byte>, lastRecordLen: nat, data: seq<byte>) {
      chunk != [] ==>
        var n := ChunkLen(|data|, lastRecordLen, true);
        n <= |data| && chunk == data[..n]
    }

    /** What a call adds to the stream that reports so many octets of data as written, when it
        finds the given chunk in the buffer: the chunk goes out instead of the first piece. */
    function Sent(chunk: seq<byte>, lastRecordLen: nat, data: seq<byte>, written: nat): seq<byte>
      requires written <= |data|
    {
      var n := ChunkLen(|data|, lastRecordLen, true);
      if chunk == [] || written == 0 || written < n then data[..written] else chunk + data[n..written]
    }

    /** The records carry the stream and then the part of the chunk that has left. */
    predicate Carry(records: seq<seq<byte>>, stream: seq<byte>, chunk: seq<byte>, pos: nat) {
      && pos <= |chunk|
      && Concat(records) == stream + chunk[..pos]
      && forall k :: 0 <= k < |records| ==> 0 < |records[k]| <= RecordMax()
    }

    lemma CarryMore(records: seq<seq<byte>>, stream: seq<byte>, chunk: seq<byte>, pos: nat, n: nat)
      requires Carry(records, stream, chunk, pos) && 0 < n <= RecordMax() && pos + n <= |chunk|
      ensures Carry(records + [chunk[pos..pos + n]], stream, chunk, pos + n)
    {
      ConcatSnoc(records, chunk[pos..pos + n]);
      NextPiece(stream, chunk, pos, n);
      hide Concat, RecordMax;
    }

    lemma CarryWhole(records: seq<seq<byte>>, stream: seq<byte>, chunk: seq<byte>)
      requires Carry(records, stream, chunk, |chunk|)
      ensures Carry(records, stream + chunk, [], 0) && Concat(records) == stream + chunk
    {
      assert chunk[..|chunk|] == chunk;
    }

    lemma CarryNone(records: seq<seq<byte>>, stream: seq<byte>, chunk: seq<byte>)
      requires Carry(records, stream, [], 0)
      ensures Carry(records, stream, chunk, 0)
    {
      assert chunk[..0] == [];
    }

    /** What a failed call leaves behind when the given data is still to be written. */
    predicate LeftOver(chunk: seq<byte>, lastRecordLen: nat, rest: seq<byte>, first: bool) {
      chunk != [] ==> chunk <= rest && |chunk| == ChunkLen(|rest|, lastRecordLen, first)
    }
  }

  lemma ConcatSnoc(s: seq<seq<byte>>, p: seq<byte>)
    ensures Concat(s + [p]) == Concat(s) + p
  {
    assert (s + [p])[..|s|] == s;
  }

  lemma NextPiece(before: seq<byte>, data: seq<byte>, written: nat, n: nat)
    requires written + n <= |data|
    ensures data[written..][..n] == data[written..written + n]
    ensures before + data[..written] + data[written..written + n] == before + data[..written + n]
    ensures written == 0 ==> data[written..] == data && before + data[..written] == before
  {
  }

  /** Records and chunk are not longer than cap. */
  predicate Within(records: seq<seq<byte>>, chunk: seq<byte>, cap: nat) {
    |chunk| <= cap && forall k :: 0 <= k < |records| ==> |records[k]| <= cap
  }

  /** The pieces of a call one after the other. */
  lemma SentMore(limits: Limits, chunk: seq<byte>, lastRecordLen: nat, data: seq<byte>, written: nat, n: nat)
    requires limits.Positive() && 0 < n && written + n <= |data|
    requires n == limits.ChunkLen(|data| - written, if written == 0 then lastRecordLen else n, written == 0)
    requires written > 0 ==> limits.ChunkLen(|data|, lastRecordLen, true) <= written
    ensures limits.Sent(chunk, lastRecordLen, data, written + n)
      == limits.Sent(chunk, lastRecordLen, data, written)
         + if written == 0 && chunk != [] then chunk else data[written..written + n]
  {
    if written == 0 {
      assert data[n..n] == [] && data[..0] == [] && data[0..n] == data[..n];
    } else {
      var m := limits.ChunkLen(|data|, lastRecordLen, true);
      hide Limits.ChunkLen;
      Pieces(chunk, data, m, written, written + n);
    }
  }

  lemma Pieces(chunk: seq<byte>, data: seq<byte>, m: nat, a: nat, b: nat)
    requires m <= a <= b <= |data|
    ensures data[..b] == data[..a] + data[a..b] && chunk + data[m..b] == chunk + data[m..a] + data[a..b]
  {
    assert data[m..b] == data[m..a] + data[a..b];
  }

  lemma WithinMore(records: seq<seq<byte>>, chunk: seq<byte>, cap: nat, p: seq<byte>)
    requires |p| <= |chunk|
    ensures Within(records, chunk, cap) ==> Within(records + [p], chunk, cap)
  {
  }

  /** Conservation: a caller that goes on with the rest after a failure has exactly the rest added
      to the stream, if and only if the record splitting does not cut the rest differently than
      the failed call did. Otherwise all but one of the octets left over are sent twice. */
  lemma RetryConservesIff(limits: Limits, stream: seq<byte>, chunk: seq<byte>, lastRecordLen: nat, rest: seq<byte>,
                          first: bool, written: nat)
    requires limits.Positive() && chunk != [] && limits.LeftOver(chunk, lastRecordLen, rest, first)
    requires limits.ChunkLen(|rest|, lastRecordLen, true) <= written <= |rest|
    ensures limits.Resumes(chunk, lastRecordLen, rest) <==>
      first || !limits.splits || lastRecordLen == 1 || |chunk| == 1
    ensures stream + limits.Sent(chunk, lastRecordLen, rest, written) == stream + rest[..written] <==>
      first || !limits.splits || lastRecordLen == 1 || |chunk| == 1
    ensures stream + limits.Sent(chunk, lastRecordLen, rest, written) != stream + rest[..written] ==>
      limits.Sent(chunk, lastRecordLen, rest, written) == rest[..|chunk|] + rest[1..written]
  {
    var n, s := limits.ChunkLen(|rest|, lastRecordLen, true), limits.Sent(chunk, lastRecordLen, rest, written);
    assert chunk == rest[..|chunk|];
    assert |s| == |chunk| + written - n;
    if |chunk| == n {
      assert s == rest[..written];
    } else {
      assert n == 1 && |stream + s| > |stream + rest[..written]|;
    }
  }

  /** With splitting, a third record that the socket refuses makes the honest retry send all
      octets of it but one twice. */
  lemma RetryRepeats()
    ensures exists limits: Limits, chunk: seq<byte>, lastRecordLen: nat, rest: seq<byte> ::
      && limits.Configurable() && limits.LeftOver(chunk, lastRecordLen, rest, false) && chunk != []
      && |limits.Sent(chunk, lastRecordLen, rest, |rest|)| == |rest| + 511
  {
    var limits := Limits(16384, 512, 16384, 16384, true, true);
    var rest: seq<byte> := seq(512, _ => 0);
    assert limits.LeftOver(rest, 512, rest, false) && |limits.Sent(rest, 512, rest, |rest|)| == 1023;
  }

  class Writer {
    const limits: Limits
    /** The socket takes every record. */
    const reliable: bool
    var state: nat
    var lastRecordLen: nat
    /** The content of the transmit buffer, empty when it is free, and how much of it has been
        sent in records. */
    var chunk: seq<byte>
    var pos: nat
    /** The payloads of the records sent. */
    var records: seq<seq<byte>>
    /** The octets of the chunks that have left as a whole. */
    ghost var stream: seq<byte>

    constructor (limits: Limits, reliable: bool)
      requires limits.Positive()
      ensures Valid() && Tight() && this.limits == limits && chunk == [] && stream == [] && records == []
    {
      this.limits, this.reliable := limits, reliable;
      state, lastRecordLen, chunk, pos, records, stream := 0, 0, [], 0, [], [];
    }

    /** The records carry the stream and then the part of the chunk that has left, each within
        the limits of records and of the buffer. */
    ghost predicate Valid()
      reads `chunk, `pos, `records, `stream
    {
      && limits.Positive() && limits.Carry(records, stream, chunk, pos)
      && Within(records, chunk, limits.txBufferMaxLen)
    }

    /** None is longer than the peer is willing to receive. */
    ghost predicate Tight()
      reads `chunk, `records
    {
      Within(records, chunk, limits.recordSizeLimit)
    }

    /** tlsWriteRecord; whether the socket takes the record is not determined. */
    method WriteRecord(p: seq<byte>) returns (ok: bool)
      modifies `records
      ensures records == if ok then old(records) + [p] else old(records)
      ensures reliable ==> ok
    {
      var taken: bool := *;
      ok := reliable || taken;
      if ok { records := records + [p]; }
    }

    /** The next record from the buffer. */
    method SendPart() returns (ok: bool)
      requires Valid() && pos < |chunk|
      modifies `pos, `records
      ensures Valid() && (old(Tight()) ==> Tight()) && pos >= old(pos) && (ok ==> pos > old(pos))
      ensures reliable ==> ok
      ensures if ok then |records| == |old(records)| + 1 && records[..|old(records)|] == old(records)
                && (|records[|old(records)|]| == limits.RecordMax() || pos == |chunk|)
              else records == old(records)
    {
      hide *;
      var n := limits.PartLen(|chunk| - pos);
      PartMore(n);
      ok := WriteRecord(chunk[pos..pos + n]);
      if !ok {
        return;
      }
      pos := pos + n;
      NowValid();
    }

    /** The records with the next part of the chunk. */
    lemma PartMore(n: nat)
      requires Valid() && pos < |chunk| && n == limits.PartLen(|chunk| - pos)
      ensures 0 < n <= |chunk| - pos && limits.Positive()
      ensures n == limits.RecordMax() || n == |chunk| - pos
      ensures var r := records + [chunk[pos..pos + n]];
        && limits.Carry(r, stream, chunk, pos + n) && Within(r, chunk, limits.txBufferMaxLen)
        && (Tight() ==> Within(r, chunk, limits.recordSizeLimit))
    {
      limits.CarryMore(records, stream, chunk, pos, n);
      WithinMore(records, chunk, limits.txBufferMaxLen, chunk[pos..pos + n]);
      WithinMore(records, chunk, limits.recordSizeLimit, chunk[pos..pos + n]);
      hide Limits.Carry, Limits.Positive, Limits.RecordMax, Within;
    }

    lemma NowValid()
      requires limits.Positive() && limits.Carry(records, stream, chunk, pos)
      requires Within(records, chunk, limits.txBufferMaxLen)
      ensures Valid() && (Within(records, chunk, limits.recordSizeLimit) ==> Tight())
    {
    }

    /** tlsWriteProtocolData. A chunk still in the buffer from an earlier call is sent instead of
        the data, whatever the data is. */
    method WriteProtocolData(data: seq<byte>) returns (ok: bool)
      requires Valid()
      modifies `chunk, `pos, `records, `stream
      ensures Valid() && (old(Tight()) && |data| <= limits.recordSizeLimit ==> Tight())
      ensures var c := if old(chunk) != [] then old(chunk) else data;
        if ok then chunk == [] && stream == old(stream) + c && Concat(records) == stream
        else
          && stream == old(stream)
          && (chunk == c || (chunk == [] && old(chunk) == [] && |data| > limits.txBufferMaxLen))
      ensures reliable && (old(chunk) != [] || |data| <= limits.txBufferMaxLen) ==> ok
      ensures old(records) <= records
      ensures forall k :: |old(records)| <= k < |records| - 1 ==> |records[k]| == limits.RecordMax()
    {
      hide Limits.RecordMax, Concat;
      if chunk == [] {
        if |data| > limits.txBufferMaxLen {
          return false;
        }
        limits.CarryNone(records, stream, data);
        chunk, pos := data, 0;
      }
      ghost var c := chunk;
      while pos < |chunk|
        invariant Valid() && chunk == c && stream == old(stream)
        invariant old(Tight()) && |data| <= limits.recordSizeLimit ==> Tight()
        invariant old(records) <= records
        invariant forall k :: |old(records)| <= k < |records| && (k < |records| - 1 || pos < |chunk|) ==>
          |records[k]| == limits.RecordMax()
      {
        var sent := SendPart();
        if !sent {
          return false;
        }
      }
      limits.CarryWhole(records, stream, c);
      stream := stream + c;
      chunk, pos := [], 0;
      return true;
    }

    /** tlsConnect and tlsProcessError, as far as the state is concerned. */
    method Connect() returns (ok: bool)
      modifies `state
      ensures ok ==> state == STATE_APPLICATION_DATA
    {
      var done: bool := *;
      ok := done;
      if ok { state := STATE_APPLICATION_DATA; }
    }

    method ProcessError()
      modifies `state
    {
      var fatal: bool := *;
      if fatal { state := STATE_CLOSED; }
    }

    /** A call of tlsWrite that started there has got this far. */
    ghost predicate Going(data: seq<byte>, start: Start, written: nat)
      ensures Going(data, start, written) ==> limits.Positive() && written <= |data|
      reads `chunk, `pos, `records, `stream, `lastRecordLen
    {
      && Valid() && written <= |data|
      && stream == start.stream + limits.Sent(start.chunk, start.lastRecordLen, data, written)
      && if written == 0 then chunk == start.chunk && lastRecordLen == start.lastRecordLen
         else
           && chunk == [] && Concat(records) == stream
           && limits.ChunkLen(|data|, start.lastRecordLen, true) <= written
    }

    /** It has stopped there. */
    ghost predicate Halted(data: seq<byte>, start: Start, written: nat)
      reads `chunk, `pos, `records, `stream, `lastRecordLen
    {
      && Valid() && written <= |data|
      && stream == start.stream + limits.Sent(start.chunk, start.lastRecordLen, data, written)
      && (written > 0 ==> limits.ChunkLen(|data|, start.lastRecordLen, true) <= written)
      && if written == 0 && start.chunk != [] then chunk == start.chunk && lastRecordLen == start.lastRecordLen
         else limits.LeftOver(chunk, lastRecordLen, data[written..], written == 0)
    }

    lemma GoingHalts(data: seq<byte>, start: Start, written: nat)
      requires Going(data, start, written)
      ensures Halted(data, start, written)
    {
    }

    /** One round of the loop. */
    method WriteChunk(data: seq<byte>, ghost start: Start, written: nat) returns (ok: bool, total: nat)
      requires Going(data, start, written) && written < |data|
      modifies `chunk, `pos, `records, `stream, `lastRecordLen
      ensures ok ==> total > written && Going(data, start, total)
      ensures !ok ==> total == written && Halted(data, start, written)
      ensures old(Tight()) ==> Tight()
      ensures ok ==>
        limits.LastChunk(|data| - total, lastRecordLen, false)
        == old(limits.LastChunk(|data| - written, lastRecordLen, written == 0))
      ensures reliable ==> ok
    {
      hide *;
      GoingParts(data, start, written);
      var n := limits.ChunkLen(|data| - written, lastRecordLen, written == 0);
      PieceLen(data, start, written, n);
      var piece := data[written..written + n];
      SentMore(limits, start.chunk, start.lastRecordLen, data, written, n);
      ghost var last := lastRecordLen;
      LastOf(limits, |data| - written, last, written == 0);
      ok := WriteProtocolData(piece);
      if !ok {
        NowHalted(data, start, written, n, piece);
        return false, written;
      }
      lastRecordLen := n;
      NowGoing(data, start, written + n);
      return true, written + n;
    }

    lemma GoingParts(data: seq<byte>, start: Start, written: nat)
      requires Going(data, start, written)
      ensures Valid() && limits.Positive() && written <= |data|
      ensures stream == start.stream + limits.Sent(start.chunk, start.lastRecordLen, data, written)
      ensures if written == 0 then chunk == start.chunk && lastRecordLen == start.lastRecordLen
        else chunk == [] && Concat(records) == stream && limits.ChunkLen(|data|, start.lastRecordLen, true) <= written
    {
    }

    lemma NowGoing(data: seq<byte>, start: Start, written: nat)
      requires Valid() && 0 < written <= |data| && chunk == [] && Concat(records) == stream
      requires stream == start.stream + limits.Sent(start.chunk, start.lastRecordLen, data, written)
      requires limits.ChunkLen(|data|, start.lastRecordLen, true) <= written
      ensures Going(data, start, written)
    {
    }

    lemma NowHalted(data: seq<byte>, start: Start, written: nat, n: nat, piece: seq<byte>)
      requires Valid() && written + n <= |data| && piece == data[written..written + n]
      requires n == limits.ChunkLen(|data| - written, lastRecordLen, written == 0)
      requires stream == start.stream + limits.Sent(start.chunk, start.lastRecordLen, data, written)
      requires written > 0 ==> limits.ChunkLen(|data|, start.lastRecordLen, true) <= written
      requires if written == 0 && start.chunk != [] then chunk == start.chunk && lastRecordLen == start.lastRecordLen
        else chunk == piece
      ensures Halted(data, start, written)
    {
      hide Limits.ChunkLen, Limits.Sent, Valid;
    }

    lemma LastOfAll(limits: Limits, last: nat, first: bool)
      requires limits.Positive()
      ensures limits.LastChunk(0, last, first) == last && STATE_APPLICATION_DATA == 30
    {
    }

    lemma LastOf(limits: Limits, left: nat, last: nat, first: bool)
      requires limits.Positive() && left > 0
      ensures var n := limits.ChunkLen(left, last, first);
        0 < n <= left && limits.LastChunk(left, last, first) == limits.LastChunk(left - n, n, false)
    {
    }

    lemma PieceLen(data: seq<byte>, start: Start, written: nat, n: nat)
      requires Going(data, start, written) && written < |data|
      requires n == limits.ChunkLen(|data| - written, lastRecordLen, written == 0)
      ensures 0 < n <= |data| - written && n <= limits.txBufferMaxLen && n <= limits.recordSizeLimit
      ensures n == limits.ChunkLen(|data| - written, if written == 0 then start.lastRecordLen else n, written == 0)
    {
    }

    /** tlsWrite. The records carry what is reported as written, in order and once, except that
        a chunk found in the buffer goes out in place of the first piece; a call that fails
        leaves at most the chunk that follows, or the one it found. */
    method Write(data: seq<byte>) returns (ok: bool, written: nat)
      requires Valid()
      modifies this
      ensures Valid() && (old(Tight()) ==> Tight()) && written <= |data|
      ensures stream == old(stream) + limits.Sent(old(chunk), old(lastRecordLen), data, written)
      ensures written > 0 ==> limits.ChunkLen(|data|, old(lastRecordLen), true) <= written
      ensures ok ==> written == |data|
      ensures ok && data != [] ==> Concat(records) == stream && chunk == []
      ensures ok ==> lastRecordLen == limits.LastChunk(|data|, old(lastRecordLen), true)
      ensures reliable && old(state) == STATE_APPLICATION_DATA ==> ok
      ensures old(state) > 30 && data != [] ==> !ok && written == 0 && records == old(records)
      ensures !ok ==>
        if written == 0 && old(chunk) != [] then chunk == old(chunk) && lastRecordLen == old(lastRecordLen)
        else limits.LeftOver(chunk, lastRecordLen, data[written..], written == 0)
    {
      hide *;
      ghost var start := Start(stream, chunk, lastRecordLen);
      NothingSent(data, start);
      LastOfAll(limits, lastRecordLen, true);
      ok, written := true, 0;
      while written < |data|
        invariant Going(data, start, written) && (old(Tight()) ==> Tight())
        invariant limits.LastChunk(|data| - written, lastRecordLen, written == 0)
          == limits.LastChunk(|data|, old(lastRecordLen), true)
        invariant old(state) == STATE_APPLICATION_DATA ==> state == STATE_APPLICATION_DATA
        invariant old(state) > STATE_APPLICATION_DATA ==>
          state > STATE_APPLICATION_DATA && written == 0 && records == old(records)
        decreases |data| - written, if state < STATE_APPLICATION_DATA then 1 else 0
      {
        GoingHalts(data, start, written);
        HaltedParts(data, start, written);
        if state < STATE_APPLICATION_DATA {
          ok := Connect();
          if !ok { return; }
        } else if state == STATE_APPLICATION_DATA {
          ok, written := WriteChunk(data, start, written);
          if !ok {
            HaltedParts(data, start, written);
            ProcessError();
            return;
          }
        } else {
          return false, written;
        }
      }
      GoingParts(data, start, written);
      LastOfAll(limits, lastRecordLen, written == 0);
      return true, written;
    }

    lemma HaltedParts(data: seq<byte>, start: Start, written: nat)
      requires Halted(data, start, written)
      ensures Valid() && written <= |data|
      ensures stream == start.stream + limits.Sent(start.chunk, start.lastRecordLen, data, written)
      ensures written > 0 ==> limits.ChunkLen(|data|, start.lastRecordLen, true) <= written
      ensures if written == 0 && start.chunk != [] then chunk == start.chunk && lastRecordLen == start.lastRecordLen
        else limits.LeftOver(chunk, lastRecordLen, data[written..], written == 0)
    {
    }

    lemma NothingSent(data: seq<byte>, start: Start)
      requires Valid() && start == Start(stream, chunk, lastRecordLen)
      ensures Going(data, start, 0)
    {
    }
  }

  /** The writer when a call began. */
  datatype Start = Start(stream: seq<byte>, chunk: seq<byte>, lastRecordLen: nat)

  // ----- Receiving -----

  /** What the record layer yields next: a payload of some content type, or a failure. For
      handshake messages and alerts, next is the state that handling them leads to, if it
      succeeds. */
  datatype Incoming =
    | Data(payload: seq<byte>)
    | Handshake(payload: seq<byte>, ok: bool, next: nat)
    | Alert(payload: seq<byte>, ok: bool, next: nat)
    | Other(payload: seq<byte>)
    | Failure

  /** The application data still to come. */
  function AppBytes(s: seq<Incoming>): seq<byte> {
    if s == [] then [] else (if s[0].Data? then s[0].payload else []) + AppBytes(s[1..])
  }

  /** Nothing but application data arrives. */
  predicate OnlyData(s: seq<Incoming>) {
    forall k :: 0 <= k < |s| ==> s[k].Data?
  }

  datatype Flags = Flags(waitAll: bool, breakChar: bool, c: byte) {
    /** What a call needs to succeed on a quiet connection: as many octets as it asks for, or, when it looks
        for a break character, this character, or, when it takes what there is, anything at all. */
    predicate Served(size: nat, all: seq<byte>, some: bool) {
      |all| >= size || if breakChar then c in all else !waitAll && some
    }

    lemma ServedNow(size: nat, all: seq<byte>, some: bool, out: seq<byte>, rest: seq<byte>)
      requires all == out + rest && |out| <= size
      ensures |out| == size || (breakChar && c in out) || (!breakChar && !waitAll && some) ==> Served(size, all, some)
      ensures |out| < size && rest == [] && (if breakChar then c !in out else waitAll || !some) ==>
        !Served(size, all, some) && out == all
    {
    }
  }

  datatype ReadStatus = NoError | EndOfStream | Failed

  class Reader {
    var state: nat
    var fatalAlert: bool
    /** The receive buffer between rxBufferPos and rxBufferPos + rxBufferLen, and what it comes
        from. */
    var buffer: seq<byte>
    var current: Incoming
    var incoming: seq<Incoming>

    constructor (incoming: seq<Incoming>)
      ensures Remaining() == AppBytes(incoming)
    {
      this.incoming := incoming;
      state, fatalAlert, buffer, current := 0, false, [], Data([]);
    }

    /** The octets of the stream that have not been handed to a caller. */
    function Remaining(): seq<byte>
      reads `buffer, `current, `incoming
    {
      (if current.Data? then buffer else []) + AppBytes(incoming)
    }

    /** The connection is up, and nothing but application data is buffered or to come. */
    predicate Quiet()
      ensures Quiet() ==> state == STATE_APPLICATION_DATA && current.Data?
      reads `state, `current, `incoming
    {
      state == STATE_APPLICATION_DATA && current.Data? && OnlyData(incoming)
    }

    /** The octets that the next record gives, if there is one. */
    function Chunk(): (p: seq<byte>)
      reads `buffer, `incoming
    {
      if buffer == [] && incoming != [] && incoming[0].Data? then incoming[0].payload else buffer
    }

    predicate Answers(size: nat, flags: Flags)
      reads `buffer, `current, `incoming
    {
      flags.Served(size, Remaining(), buffer != [] || incoming != [])
    }

    /** tlsReadProtocolData */
    method ReadProtocolData() returns (ok: bool)
      modifies `buffer, `current, `incoming
      ensures Remaining() == old(Remaining())
      ensures
        || |incoming| < old(|incoming|)
        || (incoming == old(incoming) && buffer == old(buffer) && current == old(current))
      ensures ok && incoming == old(incoming) ==> buffer != []
      ensures old(Quiet()) ==> Quiet() && (ok <==> old(buffer) != [] || old(incoming) != [])
      ensures ok && current.Data? && old(Quiet()) ==> buffer == old(Chunk())
    {
      if buffer == [] {
        if incoming == [] {
          return false;
        }
        var next := incoming[0];
        incoming := incoming[1..];
        if next.Failure? {
          return false;
        }
        buffer, current := next.payload, next;
      }
      return true;
    }

    /** The search for the break character in the buffer. */
    method FindBreak(c: byte, limit: nat) returns (n: nat)
      requires limit <= |buffer|
      ensures n <= limit && (limit > 0 ==> n > 0)
      ensures forall k :: 0 <= k < n - 1 ==> buffer[k] != c
      ensures n < limit ==> n > 0 && buffer[n - 1] == c
    {
      var i := 0;
      while i < limit && buffer[i] != c
        invariant 0 <= i <= limit
        invariant forall k :: 0 <= k < i ==> buffer[k] != c
      {
        i := i + 1;
      }
      n := Min(limit, i + 1);
    }

    /** The next n octets go to the caller. */
    method TakeOut(n: nat, out: seq<byte>) returns (r: seq<byte>)
      requires n <= |buffer| && current.Data?
      modifies `buffer
      ensures r == out + old(buffer)[..n] && buffer == old(buffer)[n..]
      ensures out + old(Remaining()) == r + Remaining()
    {
      r := out + buffer[..n];
      assert buffer == buffer[..n] + buffer[n..];
      buffer := buffer[n..];
    }

    /** Application data for the caller, up to the break character if one is looked for. */
    method TakeData(size: nat, flags: Flags, out: seq<byte>) returns (r: seq<byte>, done: bool)
      requires |out| < size && current.Data? && (flags.breakChar ==> flags.c !in out)
      modifies `buffer
      ensures |r| <= size && out + old(Remaining()) == r + Remaining()
      ensures if old(buffer) == [] then r == out && buffer == [] else |r| > |out| && |buffer| < |old(buffer)|
      ensures if flags.breakChar
        then
          && (forall k :: 0 <= k < |r| - 1 ==> r[k] != flags.c)
          && if done then r != [] && r[|r| - 1] == flags.c && flags.c in r else flags.c !in r
        else
          && done == !flags.waitAll && (|r| < size ==> buffer == [])
          && r == out + old(buffer)[..Min(|old(buffer)|, size - |out|)]
    {
      hide Remaining;
      var n := Min(|buffer|, size - |out|);
      if flags.breakChar {
        n := FindBreak(flags.c, n);
        done := n > 0 && buffer[n - 1] == flags.c;
      } else {
        done := !flags.waitAll;
      }
      r := TakeOut(n, out);
    }

    /** Handshake messages and alerts are consumed as a whole and handled. */
    method Handle() returns (ok: bool)
      requires !current.Data?
      modifies `buffer, `state, `fatalAlert
      ensures Remaining() == old(Remaining()) && (ok ==> buffer == [])
    {
      if current.Handshake? || current.Alert? {
        buffer := [];
        ok := current.ok;
        if ok { state := current.next; }
      } else {
        ok := false;
      }
    }

    method Connect() returns (ok: bool)
      modifies `state
      ensures ok ==> state == STATE_APPLICATION_DATA
    {
      var done: bool := *;
      ok := done;
      if ok { state := STATE_APPLICATION_DATA; }
    }

    method ProcessError()
      modifies `state, `fatalAlert
    {
      var fatal: bool := *;
      if fatal { state, fatalAlert := STATE_CLOSED, true; }
    }

    lemma NothingRemains()
      ensures Quiet() && buffer == [] && incoming == [] ==> Remaining() == []
    {
    }

    /** tlsRead. Whatever happens in between, the octets handed out are the next ones of the
        stream, and all others remain. A call that succeeds has made progress; on a quiet connection it
        is determined which calls do and how much they return. */
    method Read(size: nat, flags: Flags) returns (status: ReadStatus, out: seq<byte>)
      modifies this
      ensures |out| <= size && old(Remaining()) == out + Remaining()
      ensures flags.breakChar ==> forall k :: 0 <= k < |out| - 1 ==> out[k] != flags.c
      ensures status.NoError? && |out| < size ==>
        if flags.breakChar then state >= STATE_CLOSING || (out != [] && out[|out| - 1] == flags.c)
        else flags.waitAll ==> state >= STATE_CLOSING
      ensures status.NoError? && !flags.breakChar && !flags.waitAll && |out| < size ==> buffer == []
      ensures status.EndOfStream? ==> out == [] && state >= STATE_CLOSING
      ensures |incoming| <= |old(incoming)|
      ensures status.NoError? && size > 0 && out == [] ==>
        !flags.waitAll && !flags.breakChar && |incoming| < |old(incoming)|
      ensures old(Quiet()) ==> if old(Answers(size, flags)) then status.NoError? && Quiet() else status.Failed?
      ensures old(Quiet()) && !old(Answers(size, flags)) ==> out == old(Remaining())
      ensures old(Quiet()) && status.NoError? && !flags.breakChar && !flags.waitAll ==>
        out == old(Chunk())[..Min(|old(Chunk())|, size)]
    {
      hide Remaining, Quiet, AppBytes, OnlyData, Flags.Served, Chunk;
      ghost var all, some := Remaining(), buffer != [] || incoming != [];
      status, out := NoError, [];
      while |out| < size
        invariant |out| <= size && old(Remaining()) == out + Remaining() && status.NoError?
        invariant flags.breakChar ==> flags.c !in out
        invariant !flags.breakChar && !flags.waitAll ==> out == []
        invariant old(Quiet()) ==> Quiet()
        invariant |incoming| <= |old(incoming)|
        invariant !flags.breakChar && !flags.waitAll && old(Quiet()) ==>
          buffer == old(buffer) && incoming == old(incoming)
        decreases |incoming|, |buffer|, if state < STATE_APPLICATION_DATA then 1 else 0
      {
        if state < STATE_APPLICATION_DATA {
          var ok := Connect();
          if !ok { return Failed, out; }
        } else if state == STATE_APPLICATION_DATA {
          var ok := ReadProtocolData();
          if ok && current.Data? {
            var done;
            out, done := TakeData(size, flags, out);
            if done { break; }
          } else {
            if ok { ok := Handle(); } else { NothingRemains(); }
            if !ok {
              flags.ServedNow(size, all, some, out, Remaining());
              ProcessError();
              return Failed, out;
            }
          }
        } else {
          if fatalAlert { return Failed, out; }
          if out == [] { return EndOfStream, out; }
          break;
        }
      }
      flags.ServedNow(size, all, some, out, Remaining());
    }

    /** Any mix of calls hands out consecutive octets of the stream, none lost or repeated; and on a quiet
        connection every call that asks for something brings the end of the stream nearer, so that as many
        calls as there are octets and records yield all of it. */
    method ReadCalls(calls: seq<(nat, Flags)>) returns (outs: seq<seq<byte>>)
      modifies this
      ensures |outs| == |calls| && forall k :: 0 <= k < |calls| ==> |outs[k]| <= calls[k].0
      ensures old(Remaining()) == Concat(outs) + Remaining()
      ensures old(Quiet()) && (forall k :: 0 <= k < |calls| ==> calls[k].0 > 0) ==>
        && (Remaining() == [] || |calls| <= |Concat(outs)| + |old(incoming)| - |incoming|)
        && (|calls| >= |old(Remaining())| + |old(incoming)| ==> Concat(outs) == old(Remaining()))
    {
      hide AppBytes, Quiet, Remaining, Concat;
      ghost var start := Remaining();
      outs := [];
      NoPieces();
      while |outs| < |calls|
        invariant |outs| <= |calls| && forall k :: 0 <= k < |outs| ==> |outs[k]| <= calls[k].0
        invariant start == Concat(outs) + Remaining()
        invariant old(Quiet()) && (forall k :: 0 <= k < |calls| ==> calls[k].0 > 0) ==>
          Remaining() == [] || (Quiet() && |outs| <= |Concat(outs)| + |old(incoming)| - |incoming|)
      {
        var status, out := Read(calls[|outs|].0, calls[|outs|].1);
        HandedOn(outs, out, Remaining());
        outs := outs + [out];
      }
    }
  }

  lemma NoPieces()
    ensures Concat([]) == []
  {
  }

  lemma HandedOn(outs: seq<seq<byte>>, out: seq<byte>, rest: seq<byte>)
    ensures Concat(outs) + (out + rest) == Concat(outs + [out]) + rest
    ensures |Concat(outs + [out])| == |Concat(outs)| + |out|
  {
    ConcatSnoc(outs, out);
  }
}
