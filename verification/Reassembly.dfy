/** Handshake reassembly on queue values: what dtlsReassembleHandshakeMessage computes,
    and what the computed queue is worth (section 4.2.3 of RFC 6347). */
module Reassembly {
  import opened Bytes
  import opened Fragments

  datatype Error = UnexpectedMessage | BufferOverflow

  datatype Outcome = Queued(queue: seq<Fragment>) | Rejected(error: Error)

  predicate Ascending(q: seq<Fragment>) {
    forall i, j :: 0 <= i < j < |q| ==> q[i].offset <= q[j].offset
  }

  /** Neighbours neither overlap nor touch. */
  predicate Gapped(q: seq<Fragment>) {
    forall i, j :: 0 <= i < j < |q| ==> q[i].End() < q[j].offset
  }

  predicate OneMessage(q: seq<Fragment>) {
    forall i, j :: 0 <= i < |q| && 0 <= j < |q| ==> q[i].SameMessage(q[j])
  }

  /** The invariant of the reassembly queue. */
  predicate QueueInv(q: seq<Fragment>) {
    AllWireSized(q) && OneMessage(q) && Gapped(q)
  }

  /** Position x of the message is held by some entry. */
  ghost predicate Covers(q: seq<Fragment>, x: int) {
    exists k :: 0 <= k < |q| && q[k].offset <= x < q[k].End()
  }

  // ----- The algorithm -----

  /** The insertion walk: entries are compared until one lies beyond the arriving offset. */
  predicate Mismatch(q: seq<Fragment>, f: Fragment) {
    q != [] && (!f.SameMessage(q[0]) || (q[0].offset <= f.offset && Mismatch(q[1..], f)))
  }

  /** Where the walk stops. */
  function InsertIndex(q: seq<Fragment>, offset: nat): (i: nat)
    ensures i <= |q|
  {
    if q == [] || offset < q[0].offset then 0 else 1 + InsertIndex(q[1..], offset)
  }

  function Insert(q: seq<Fragment>, f: Fragment): (r: seq<Fragment>)
    ensures |r| == |q| + 1
  {
    var i := InsertIndex(q, f.offset);
    q[..i] + [f] + q[i..]
  }

  /** The second fragment's octets win where the two overlap. */
  function Join(prev: Fragment, f: Fragment): Fragment
    requires prev.offset <= f.offset <= prev.End()
  {
    prev.(data := prev.data[..f.offset - prev.offset] + f.data)
  }

  /** The coalescing pass: prev is the entry every following one is compared with. */
  function Sweep(prev: Fragment, rest: seq<Fragment>): (r: seq<Fragment>)
    requires Ascending([prev] + rest)
    ensures r != []
    decreases |rest|
  {
    if rest == [] then [prev]
    else
      var f := rest[0];
      AscendingTail(prev, rest);
      if f.offset > prev.End() then [prev] + Sweep(f, rest[1..])
      else if f.End() > prev.End() then Sweep(Join(prev, f), rest[1..])
      else Sweep(prev, rest[1..])
  }

  lemma AscendingTail(prev: Fragment, rest: seq<Fragment>)
    requires rest != [] && Ascending([prev] + rest)
    ensures prev.offset <= rest[0].offset
    ensures Ascending([rest[0]] + rest[1..])
    ensures forall p: Fragment :: p.offset == prev.offset ==> Ascending([p] + rest[1..])
  {
    var q := [prev] + rest;
    assert q[0].offset <= q[1].offset;
    assert [rest[0]] + rest[1..] == q[1..];
    forall p: Fragment | p.offset == prev.offset
      ensures Ascending([p] + rest[1..])
    {
      var t := [p] + rest[1..];
      assert forall j :: 0 < j < |t| ==> t[j] == q[j + 1];
      assert t[0].offset == q[0].offset;
    }
  }

  function Coalesce(q: seq<Fragment>): (r: seq<Fragment>)
    requires q != [] && Ascending(q)
    ensures r != []
  {
    assert [q[0]] + q[1..] == q;
    Sweep(q[0], q[1..])
  }

  /** A whole call: capacity is rxBufferSize - rxDatagramLen. */
  function Reassemble(q: seq<Fragment>, f: Fragment, capacity: int): Outcome
    requires Gapped(q)
  {
    if Mismatch(q, f) then Rejected(UnexpectedMessage)
    else if |EncodeQueue(q)| + |Encode(f)| > capacity then Rejected(BufferOverflow)
    else
      InsertAscending(q, f);
      Queued(Coalesce(Insert(q, f)))
  }

  // ----- Insertion -----

  lemma {:induction false} InsertIndexSplits(q: seq<Fragment>, offset: nat)
    requires Ascending(q)
    ensures forall k :: 0 <= k < InsertIndex(q, offset) ==> q[k].offset <= offset
    ensures forall k :: InsertIndex(q, offset) <= k < |q| ==> offset < q[k].offset
  {
    if q != [] && q[0].offset <= offset {
      InsertIndexSplits(q[1..], offset);
      forall k | 0 <= k < InsertIndex(q, offset) ensures q[k].offset <= offset {
        if k > 0 { assert q[k] == q[1..][k - 1]; }
      }
      forall k | InsertIndex(q, offset) <= k < |q| ensures offset < q[k].offset {
        assert q[k] == q[1..][k - 1];
      }
    }
  }

  lemma InsertAscending(q: seq<Fragment>, f: Fragment)
    requires Gapped(q)
    ensures Ascending(q) && Ascending(Insert(q, f))
  {
    assert Ascending(q);
    InsertIndexSplits(q, f.offset);
  }

  /** On a queue of one message, the walk refuses exactly a fragment of another one. */
  lemma {:induction false} MismatchIff(q: seq<Fragment>, f: Fragment)
    requires OneMessage(q)
    ensures Mismatch(q, f) <==> q != [] && !f.SameMessage(q[0])
  {
    if q != [] && f.SameMessage(q[0]) && q[0].offset <= f.offset && q[1..] != [] {
      MismatchIff(q[1..], f);
      assert q[1].SameMessage(q[0]);
    }
  }

  // ----- The coalescing pass -----

  lemma {:induction false} SweepGapped(prev: Fragment, rest: seq<Fragment>)
    requires Ascending([prev] + rest)
    ensures Gapped(Sweep(prev, rest))
    ensures Sweep(prev, rest)[0].offset == prev.offset
    decreases |rest|
  {
    if rest != [] {
      var f := rest[0];
      AscendingTail(prev, rest);
      if f.offset > prev.End() {
        SweepGapped(f, rest[1..]);
      } else if f.End() > prev.End() {
        SweepGapped(Join(prev, f), rest[1..]);
      } else {
        SweepGapped(prev, rest[1..]);
      }
    }
  }

  lemma CoversCons(f: Fragment, q: seq<Fragment>, x: int)
    ensures Covers([f] + q, x) <==> f.offset <= x < f.End() || Covers(q, x)
  {
    var s := [f] + q;
    if f.offset <= x < f.End() { assert s[0] == f; }
    if Covers(q, x) {
      var k :| 0 <= k < |q| && q[k].offset <= x < q[k].End();
      assert s[k + 1] == q[k];
    }
  }

  lemma {:induction false} SweepCovers(prev: Fragment, rest: seq<Fragment>, x: int)
    requires Ascending([prev] + rest)
    ensures Covers(Sweep(prev, rest), x) <==> Covers([prev] + rest, x)
    decreases |rest|
  {
    CoversCons(prev, rest, x);
    if rest == [] {
      assert [prev] + rest == [prev];
    } else {
      var f, tail := rest[0], rest[1..];
      AscendingTail(prev, rest);
      assert rest == [f] + tail;
      CoversCons(f, tail, x);
      if f.offset > prev.End() {
        SweepCovers(f, tail, x);
        CoversCons(prev, Sweep(f, tail), x);
      } else {
        var p := if f.End() > prev.End() then Join(prev, f) else prev;
        SweepCovers(p, tail, x);
        CoversCons(p, tail, x);
      }
    }
  }

  /** The pass never grows the queue, and leaves headers of one message alone. */
  lemma {:induction false} SweepShape(prev: Fragment, rest: seq<Fragment>, like: Fragment)
    requires Ascending([prev] + rest)
    requires prev.SameMessage(like) && forall k :: 0 <= k < |rest| ==> rest[k].SameMessage(like)
    requires prev.length < 0x100_0000 && prev.msgSeq < 0x1_0000 && prev.offset < 0x100_0000
    requires AllWireSized(rest)
    ensures |EncodeQueue(Sweep(prev, rest))| <= |Encode(prev)| + |EncodeQueue(rest)|
    ensures forall r :: r in Sweep(prev, rest) ==> r.SameMessage(like)
    ensures forall r :: r in Sweep(prev, rest) ==>
      r.length < 0x100_0000 && r.msgSeq < 0x1_0000 && r.offset < 0x100_0000
    decreases |rest|
  {
    if rest == [] {
      EncodeQueueSingleton(prev);
    } else {
      var f := rest[0];
      AscendingTail(prev, rest);
      assert f.SameMessage(like);
      if f.offset > prev.End() {
        SweepShape(f, rest[1..], like);
        assert ([prev] + Sweep(f, rest[1..]))[1..] == Sweep(f, rest[1..]);
      } else if f.End() > prev.End() {
        SweepShape(Join(prev, f), rest[1..], like);
      } else {
        SweepShape(prev, rest[1..], like);
      }
    }
  }

  lemma {:induction false} EntrySize(q: seq<Fragment>, k: nat)
    requires k < |q|
    ensures |Encode(q[k])| <= |EncodeQueue(q)|
  {
    EncodeQueueSplit(q, k);
  }

  // ----- Theorems about one call -----

  lemma CoversInsert(q: seq<Fragment>, f: Fragment, x: int)
    ensures Covers(Insert(q, f), x) <==> Covers(q, x) || f.offset <= x < f.End()
  {
    var i, r := InsertIndex(q, f.offset), Insert(q, f);
    hide InsertIndex;
    assert r[i] == f;
    forall k | 0 <= k < |q| ensures q[k] == r[if k < i then k else k + 1] {
      if k < i { assert r[k] == q[..i][k]; } else { assert r[k + 1] == q[i..][k - i]; }
    }
    if Covers(q, x) {
      var k :| 0 <= k < |q| && q[k].offset <= x < q[k].End();
      assert r[if k < i then k else k + 1] == q[k];
    }
    if Covers(r, x) {
      var k :| 0 <= k < |r| && r[k].offset <= x < r[k].End();
      if k != i { assert q[if k < i then k else k - 1] == r[k]; }
    }
  }

  lemma InsertMembers(q: seq<Fragment>, f: Fragment)
    ensures forall r :: r in Insert(q, f) <==> r in q || r == f
    ensures |EncodeQueue(Insert(q, f))| == |EncodeQueue(q)| + |Encode(f)|
  {
    var i := InsertIndex(q, f.offset);
    assert q == q[..i] + q[i..];
    EncodeQueueConcat(q[..i], q[i..]);
    EncodeQueueConcat(q[..i] + [f], q[i..]);
    EncodeQueueConcat(q[..i], [f]);
    EncodeQueueSingleton(f);
  }

  /** A successful call keeps the queue invariant and the room bound. */
  lemma ReassembleKeepsInvariant(q: seq<Fragment>, f: Fragment, capacity: int)
    requires QueueInv(q) && f.WireSized() && capacity < 0x100_0000
    requires Reassemble(q, f, capacity).Queued?
    ensures var r := Reassemble(q, f, capacity).queue;
      && QueueInv(r) && r != []
      && |EncodeQueue(r)| <= |EncodeQueue(q)| + |Encode(f)| <= capacity
      && (forall e :: e in r ==> e.SameMessage(f))
  {
    var s := Insert(q, f);
    InsertAscending(q, f);
    InsertMembers(q, f);
    MismatchIff(q, f);
    CoalesceInvariant(s, f);
  }

  lemma CoalesceInvariant(s: seq<Fragment>, like: Fragment)
    requires s != [] && Ascending(s) && AllWireSized(s) && |EncodeQueue(s)| < 0x100_0000
    requires forall e :: e in s ==> e.SameMessage(like)
    ensures QueueInv(Coalesce(s))
    ensures |EncodeQueue(Coalesce(s))| <= |EncodeQueue(s)|
    ensures forall e :: e in Coalesce(s) ==> e.SameMessage(like)
  {
    var r := Coalesce(s);
    assert s == [s[0]] + s[1..];
    SweepShape(s[0], s[1..], like);
    SweepGapped(s[0], s[1..]);
    forall k | 0 <= k < |r| ensures r[k].WireSized() {
      EntrySize(r, k);
      assert r[k] in r;
    }
    assert forall k :: 0 <= k < |r| ==> r[k] in r;
  }

  /** A successful call adds exactly the range of the arriving fragment to what is covered. */
  lemma ReassembleCovers(q: seq<Fragment>, f: Fragment, capacity: int, x: int)
    requires Gapped(q)
    requires Reassemble(q, f, capacity).Queued?
    ensures Covers(Reassemble(q, f, capacity).queue, x) <==> Covers(q, x) || f.offset <= x < f.End()
  {
    var s := Insert(q, f);
    InsertAscending(q, f);
    assert s == [s[0]] + s[1..];
    SweepCovers(s[0], s[1..], x);
    CoversInsert(q, f, x);
  }

  // ----- Content: fragments cut from one message -----

  /** A handshake message of the peer. */
  datatype Message = Message(msgType: byte, msgSeq: nat, body: seq<byte>) {
    predicate WireSized() { msgSeq < 0x1_0000 && |body| < 0x100_0000 }

    /** The unfragmented form: one fragment with offset 0 and the full length. */
    function Whole(): Fragment { Fragment(msgType, |body|, msgSeq, 0, body) }
  }

  /** f carries a stretch of m; an empty one only when m itself is empty. */
  predicate CutOf(f: Fragment, m: Message) {
    && f.msgType == m.msgType && f.length == |m.body| && f.msgSeq == m.msgSeq
    && f.End() <= |m.body|
    && f.data == m.body[f.offset..f.End()]
    && (f.data == [] ==> m.body == [])
  }

  /** The completion test of dtlsProcessRecord on the first entry of the queue. */
  predicate Complete(f: Fragment) {
    f.offset == 0 && |f.data| == f.length
  }

  lemma JoinCut(prev: Fragment, f: Fragment, m: Message)
    requires CutOf(prev, m) && CutOf(f, m)
    requires prev.offset <= f.offset <= prev.End() < f.End()
    ensures CutOf(Join(prev, f), m)
  {
    var j := Join(prev, f);
    assert m.body[prev.offset..f.End()] == m.body[prev.offset..f.offset] + m.body[f.offset..f.End()];
    assert prev.data[..f.offset - prev.offset] == m.body[prev.offset..f.offset];
  }

  lemma {:induction false} SweepCut(prev: Fragment, rest: seq<Fragment>, m: Message)
    requires Ascending([prev] + rest)
    requires CutOf(prev, m) && forall e :: e in rest ==> CutOf(e, m)
    ensures forall e :: e in Sweep(prev, rest) ==> CutOf(e, m)
    decreases |rest|
  {
    if rest != [] {
      var f := rest[0];
      AscendingTail(prev, rest);
      if f.offset > prev.End() {
        SweepCut(f, rest[1..], m);
      } else if f.End() > prev.End() {
        JoinCut(prev, f, m);
        SweepCut(Join(prev, f), rest[1..], m);
      } else {
        SweepCut(prev, rest[1..], m);
      }
    }
  }

  lemma ReassembleCut(q: seq<Fragment>, f: Fragment, capacity: int, m: Message)
    requires Gapped(q) && Reassemble(q, f, capacity).Queued?
    requires CutOf(f, m) && forall e :: e in q ==> CutOf(e, m)
    ensures forall e :: e in Reassemble(q, f, capacity).queue ==> CutOf(e, m)
  {
    var s := Insert(q, f);
    InsertAscending(q, f);
    InsertMembers(q, f);
    assert s == [s[0]] + s[1..];
    SweepCut(s[0], s[1..], m);
  }

  // ----- The round trip -----

  /** A queue of cuts of m passes the completion test exactly when it covers m, and then it
      is m itself, header and payload. */
  lemma CompleteIffCovered(q: seq<Fragment>, m: Message)
    requires q != [] && Gapped(q) && forall e :: e in q ==> CutOf(e, m)
    ensures Complete(q[0]) <==> forall x :: 0 <= x < |m.body| ==> Covers(q, x)
    ensures Complete(q[0]) ==> q == [m.Whole()]
  {
    assert forall k :: 0 <= k < |q| ==> CutOf(q[k], m);
    var last := q[|q| - 1];
    assert |q| == 1 || q[0].End() < last.offset <= last.End() <= |m.body|;
    if Complete(q[0]) {
      assert q[0].data == m.body;
    } else {
      // The first position the first entry does not hold is not held at all.
      var x := if q[0].offset > 0 then 0 else q[0].End();
      assert !Covers(q, x) by {
        forall k | 0 <= k < |q| ensures !(q[k].offset <= x < q[k].End()) {
          if k > 0 { assert q[0].End() < q[k].offset; }
        }
      }
      assert 0 <= x < |m.body|;
    }
  }

  /** Any finite stream of arrivals fed to an initially empty queue. */
  function ReassembleAll(fs: seq<Fragment>, capacity: int): (r: Outcome)
    ensures r.Queued? ==> Gapped(r.queue)
  {
    if fs == [] then Queued([])
    else
      match ReassembleAll(fs[..|fs| - 1], capacity)
      case Rejected(e) => Rejected(e)
      case Queued(q) =>
        ReassembleGapped(q, fs[|fs| - 1], capacity);
        Reassemble(q, fs[|fs| - 1], capacity)
  }

  lemma ReassembleGapped(q: seq<Fragment>, f: Fragment, capacity: int)
    requires Gapped(q)
    ensures Reassemble(q, f, capacity).Queued? ==> Gapped(Reassemble(q, f, capacity).queue)
  {
    InsertAscending(q, f);
    var s := Insert(q, f);
    assert s == [s[0]] + s[1..];
    SweepGapped(s[0], s[1..]);
  }

  lemma {:induction false} ReassembleAllState(fs: seq<Fragment>, capacity: int, m: Message)
    requires forall f :: f in fs ==> CutOf(f, m)
    ensures var r := ReassembleAll(fs, capacity);
      match r
      case Rejected(e) => e == BufferOverflow
      case Queued(q) =>
        && (q == [] <==> fs == [])
        && (forall e :: e in q ==> CutOf(e, m))
        && (forall x :: Covers(q, x) <==> Covers(fs, x))
  {
    if fs != [] {
      var init, f := fs[..|fs| - 1], fs[|fs| - 1];
      assert fs == init + [f];
      ReassembleAllState(init, capacity, m);
      var r := ReassembleAll(init, capacity);
      if r.Queued? {
        var q := r.queue;
        assert forall k :: 0 <= k < |q| ==> q[k] in q;
        MismatchIff(q, f);
        if Reassemble(q, f, capacity).Queued? {
          ReassembleCut(q, f, capacity, m);
          forall x ensures Covers(Reassemble(q, f, capacity).queue, x) <==> Covers(fs, x) {
            ReassembleCovers(q, f, capacity, x);
            CoversSnoc(init, f, x);
          }
        }
      }
    }
  }

  lemma CoversSnoc(q: seq<Fragment>, f: Fragment, x: int)
    ensures Covers(q + [f], x) <==> Covers(q, x) || f.offset <= x < f.End()
  {
    var s := q + [f];
    if f.offset <= x < f.End() { assert s[|q|] == f; }
    if Covers(q, x) {
      var k :| 0 <= k < |q| && q[k].offset <= x < q[k].End();
      assert s[k] == q[k];
    }
  }

  /** Fragments of m in any order, with any repeats and overlaps: the only refusal is for
      space, the completion test holds exactly when they cover m, and what the queue then
      holds is the unfragmented message. */
  lemma RoundTrip(fs: seq<Fragment>, capacity: int, m: Message)
    requires fs != [] && forall f :: f in fs ==> CutOf(f, m)
    ensures var r := ReassembleAll(fs, capacity);
      match r
      case Rejected(e) => e == BufferOverflow
      case Queued(q) =>
        && q != []
        && (Complete(q[0]) <==> forall x :: 0 <= x < |m.body| ==> Covers(fs, x))
        && (Complete(q[0]) ==> EncodeQueue(q) == Encode(m.Whole()))
  {
    ReassembleAllState(fs, capacity, m);
    var r := ReassembleAll(fs, capacity);
    if r.Queued? {
      CompleteIffCovered(r.queue, m);
      EncodeQueueSingleton(m.Whole());
    }
  }
}
