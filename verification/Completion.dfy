/** When a message is handed up: exactly when the fragments that have arrived cover it. */
module Completion {
  import opened Fragments
  import opened Reassembly
  import opened ReassemblyMoves
  import opened ReceiveSpec
  import ReceiveRuns

  /** The receive state after a run of fragments that reach dtlsProcessRecord one by one. */
  function Feed(s: RxState, fs: seq<Fragment>, size: nat): (r: RxState)
    requires Gapped(s.queue)
    ensures Gapped(r.queue)
  {
    if fs == [] then s
    else
      var mid := Feed(s, fs[..|fs| - 1], size);
      ReassembleGapped(mid.queue, fs[|fs| - 1], size - |mid.datagram|);
      ProcessFragment(mid, fs[|fs| - 1], size).next
  }

  ghost predicate Whole(fs: seq<Fragment>, m: Message) {
    fs != [] && forall x :: 0 <= x < |m.body| ==> Covers(fs, x)
  }

  /** The state in front of the message: a client that expects it and takes its records. */
  predicate Expects(s: RxState, m: Message) {
    && s.entity == Client && s.queue == [] && s.pending == [] && s.msgSeq == m.msgSeq
    && m.msgSeq + 1 < 0x1_0000 && !VersionEnforced(s)
  }

  function Delivered(s: RxState, m: Message): RxState {
    s.(queue := [], msgSeq := m.msgSeq + 1, pending := Encode(m.Whole()))
  }

  // ----- How long the queue can get -----

  /** The fragments that are not repeats of earlier ones. */
  function Fresh(fs: seq<Fragment>): seq<Fragment> {
    if fs == [] then []
    else
      var init, f := fs[..|fs| - 1], fs[|fs| - 1];
      Fresh(init) + if f in init then [] else [f]
  }

  /** Entries of one message have at least an octet each and a gap of one between them. */
  lemma {:induction false} GappedLength(q: seq<Fragment>, m: Message)
    requires Gapped(q) && forall e :: e in q ==> CutOf(e, m)
    ensures |EncodeQueue(q)| <= 7 * |m.body| + HEADER_LEN
    ensures q != [] && m.body != [] ==> |EncodeQueue(q)| <= 7 * (|m.body| + 1 - q[0].offset)
  {
    if q != [] {
      var tail := q[1..];
      assert CutOf(q[0], m);
      if tail == [] {
        EncodeQueueSingleton(q[0]);
        assert q == [q[0]];
      } else {
        assert CutOf(tail[0], m) && q[0].End() < tail[0].offset <= |m.body|;
        GappedLength(tail, m);
      }
    }
  }

  /** What the queue can hold of so many fragments. */
  function Held(fs: seq<Fragment>, m: Message): nat {
    var n := |EncodeQueue(Fresh(fs))|;
    if n <= 7 * |m.body| + HEADER_LEN then n else 7 * |m.body| + HEADER_LEN
  }

  /** At every arrival there is room for what the queue can hold then and the new fragment. */
  ghost predicate RoomFor(fs: seq<Fragment>, m: Message, capacity: int) {
    forall k :: 0 <= k < |fs| ==> Held(fs[..k], m) + |Encode(fs[k])| <= capacity
  }

  lemma RoomForPrefix(fs: seq<Fragment>, f: Fragment, m: Message, capacity: int)
    requires RoomFor(fs + [f], m, capacity)
    ensures RoomFor(fs, m, capacity) && Held(fs, m) + |Encode(f)| <= capacity
  {
    hide Held, Encode;
    var all := fs + [f];
    assert all[..|fs|] == fs && all[|fs|] == f;
    forall k | 0 <= k < |fs| ensures Held(fs[..k], m) + |Encode(fs[k])| <= capacity {
      assert all[..k] == fs[..k] && all[k] == fs[k];
    }
  }

  /** A bound that serves any number of fragments, repeats and overlaps. */
  lemma AlwaysRoom(fs: seq<Fragment>, m: Message, capacity: int)
    requires 8 * |m.body| + 2 * HEADER_LEN <= capacity && forall f :: f in fs ==> CutOf(f, m)
    ensures RoomFor(fs, m, capacity)
  {
    forall k | 0 <= k < |fs| ensures Held(fs[..k], m) + |Encode(fs[k])| <= capacity {
      assert CutOf(fs[k], m);
    }
  }

  // ----- Repeats -----

  /** A gapped queue is swept into itself. */
  lemma {:induction false} SweepGappedSame(prev: Fragment, rest: seq<Fragment>)
    requires Ascending([prev] + rest) && Gapped(rest) && (rest != [] ==> prev.End() < rest[0].offset)
    ensures Sweep(prev, rest) == [prev] + rest
    decreases |rest|
  {
    if rest != [] {
      AscendingTail(prev, rest);
      SweepGappedSame(rest[0], rest[1..]);
      assert rest == [rest[0]] + rest[1..];
    }
  }

  lemma {:induction false} SweepFront(front: seq<Fragment>, tail: seq<Fragment>)
    requires front != [] && Gapped(front) && Ascending(front + tail)
    ensures var last := front[|front| - 1];
      && Ascending([front[0]] + (front[1..] + tail)) && Ascending([last] + tail)
      && Sweep(front[0], front[1..] + tail) == front[..|front| - 1] + Sweep(last, tail)
    decreases |front|
  {
    hide *;
    FrontParts(front, tail);
    if |front| == 1 {
      assert front[..0] + Sweep(front[0], tail) == Sweep(front[0], tail);
    } else {
      SweepOne(front, tail);
      SweepFront(front[1..], tail);
      assert front[..|front| - 1] == [front[0]] + front[1..][..|front| - 2];
    }
  }

  lemma SweepOne(front: seq<Fragment>, tail: seq<Fragment>)
    requires |front| > 1 && Gapped(front) && Ascending([front[0]] + (front[1..] + tail))
    requires Ascending(front[1..] + tail)
    ensures Ascending([front[1]] + (front[1..][1..] + tail)) && Gapped(front[1..])
    ensures Sweep(front[0], front[1..] + tail) == [front[0]] + Sweep(front[1], front[1..][1..] + tail)
  {
    var rest := front[1..] + tail;
    assert rest[0] == front[1] && rest[1..] == front[1..][1..] + tail && [rest[0]] + rest[1..] == rest;
  }

  /** A fragment contained in an entry leaves the queue as it is. */
  lemma ContainedIgnored(q: seq<Fragment>, f: Fragment)
    requires Gapped(q) && InsertIndex(q, f.offset) > 0
    requires var e := q[InsertIndex(q, f.offset) - 1]; e.offset <= f.offset && f.End() <= e.End()
    ensures Ascending(Insert(q, f)) && Coalesce(Insert(q, f)) == q
  {
    hide *;
    var i := InsertIndex(q, f.offset);
    InsertParts(q, f, i);
    SweepFront(q[..i], [f] + q[i..]);
    SweepContained(q[i - 1], f, q[i..]);
    CoalesceIs(Insert(q, f));
    assert q == q[..i][..i - 1] + ([q[i - 1]] + q[i..]);
  }

  lemma CoalesceIs(s: seq<Fragment>)
    requires s != [] && Ascending(s)
    ensures [s[0]] + s[1..] == s && Coalesce(s) == Sweep(s[0], s[1..])
  {
  }

  lemma SweepContained(prev: Fragment, f: Fragment, back: seq<Fragment>)
    requires Ascending([prev] + ([f] + back)) && Gapped([prev] + back)
    requires prev.offset <= f.offset && f.End() <= prev.End()
    ensures Sweep(prev, [f] + back) == [prev] + back
  {
    hide *;
    Tail(prev, f, back);
    SweepPast(prev, f, back);
    SweepGappedSame(prev, back);
  }

  lemma SweepPast(prev: Fragment, f: Fragment, back: seq<Fragment>)
    requires Ascending([prev] + ([f] + back)) && Ascending([prev] + back)
    requires prev.offset <= f.offset && f.End() <= prev.End()
    ensures Sweep(prev, [f] + back) == Sweep(prev, back)
  {
    assert ([f] + back)[0] == f && ([f] + back)[1..] == back;
    AscendingTail(prev, [f] + back);
    hide Ascending;
  }

  /** A fragment whose range is covered is contained in an entry. */
  lemma CoveredContained(q: seq<Fragment>, f: Fragment, m: Message)
    requires QueueInv(q) && q != [] && CutOf(f, m) && forall e :: e in q ==> CutOf(e, m)
    requires forall x :: f.offset <= x < f.End() ==> Covers(q, x)
    ensures InsertIndex(q, f.offset) > 0
    ensures var e := q[InsertIndex(q, f.offset) - 1]; e.offset <= f.offset && f.End() <= e.End()
  {
    var i := InsertIndex(q, f.offset);
    assert Ascending(q);
    InsertIndexSplits(q, f.offset);
    hide InsertIndex, QueueInv;
    assert CutOf(q[0], m);
    if m.body != [] {
      assert Covers(q, f.offset);
      var k :| 0 <= k < |q| && q[k].offset <= f.offset < q[k].End();
      assert k == i - 1;
      EndNotCovered(q, k);
    }
  }

  lemma EndNotCovered(q: seq<Fragment>, k: nat)
    requires Gapped(q) && k < |q|
    ensures !Covers(q, q[k].End())
  {
    forall j | 0 <= j < |q| ensures !(q[j].offset <= q[k].End() < q[j].End()) {
      assert j < k ==> q[j].End() < q[k].offset;
      assert k < j ==> q[k].End() < q[j].offset;
    }
  }

  // ----- Delivery -----

  /** The queue q stands for the fragments fs fed so far. */
  ghost predicate StandsFor(q: seq<Fragment>, fs: seq<Fragment>, m: Message) {
    && QueueInv(q) && (forall e :: e in q ==> CutOf(e, m)) && (q == [] <==> fs == [])
    && (forall x :: Covers(q, x) <==> Covers(fs, x))
    && |EncodeQueue(q)| <= |EncodeQueue(Fresh(fs))|
  }

  /** Reassembly of one more fragment. */
  lemma FeedQueue(q: seq<Fragment>, fs: seq<Fragment>, f: Fragment, capacity: int, m: Message)
    requires capacity < 0x100_0000 && f.WireSized() && CutOf(f, m)
    requires StandsFor(q, fs, m) && Held(fs, m) + |Encode(f)| <= capacity
    ensures var r := Reassemble(q, f, capacity);
      && r.Queued? && r.queue != [] && StandsFor(r.queue, fs + [f], m)
      && (Complete(r.queue[0]) <==> Whole(fs + [f], m))
      && (Complete(r.queue[0]) ==> r.queue[0] == m.Whole())
  {
    hide EncodeQueue, Sweep, Coalesce, Insert, CutOf;
    SameMessageFits(q, f, m);
    GappedLength(q, m);
    var r := Reassemble(q, f, capacity).queue;
    ReceiveRuns.QueuedDelivers(q, f, capacity, m);
    ReassembleKeepsInvariant(q, f, capacity);
    CompleteIffCovered(r, m);
    forall x ensures Covers(r, x) <==> Covers(fs + [f], x) {
      ReassembleCovers(q, f, capacity, x);
      CoversSnoc(fs, f, x);
    }
    FeedLength(q, fs, f, capacity, m);
  }

  /** Only a fresh fragment makes the queue longer. */
  lemma FeedLength(q: seq<Fragment>, fs: seq<Fragment>, f: Fragment, capacity: int, m: Message)
    requires capacity < 0x100_0000 && f.WireSized() && CutOf(f, m)
    requires StandsFor(q, fs, m) && Reassemble(q, f, capacity).Queued?
    ensures |EncodeQueue(Reassemble(q, f, capacity).queue)| <= |EncodeQueue(Fresh(fs + [f]))|
  {
    hide EncodeQueue, Sweep, Insert, CutOf, InsertIndex, Encode, Mismatch;
    assert (fs + [f])[..|fs|] == fs;
    if f in fs {
      forall x | f.offset <= x < f.End() ensures Covers(q, x) {
        var k :| 0 <= k < |fs| && fs[k] == f;
        assert Covers(fs, x);
      }
      CoveredContained(q, f, m);
      ContainedIgnored(q, f);
      assert Fresh(fs) + [] == Fresh(fs);
    } else {
      ReassembleKeepsInvariant(q, f, capacity);
      EncodeQueueConcat(Fresh(fs), [f]);
      EncodeQueueSingleton(f);
    }
  }

  lemma SameMessageFits(q: seq<Fragment>, f: Fragment, m: Message)
    requires QueueInv(q) && CutOf(f, m) && forall e :: e in q ==> CutOf(e, m)
    ensures !Mismatch(q, f)
  {
    if q != [] { assert CutOf(q[0], m); }
    MismatchIff(q, f);
  }

  lemma FeedOne(s: RxState, q: seq<Fragment>, fs: seq<Fragment>, f: Fragment, size: nat, m: Message)
    requires Expects(s, m) && size < 0x100_0000 && f.WireSized() && CutOf(f, m)
    requires StandsFor(q, fs, m) && Held(fs, m) + |Encode(f)| <= size - |s.datagram|
    ensures var r := ProcessFragment(s.(queue := q), f, size).next;
      if Whole(fs + [f], m) then r == Delivered(s, m)
      else r == s.(queue := r.queue) && StandsFor(r.queue, fs + [f], m)
  {
    hide EncodeQueue, StandsFor, CutOf, Covers, ProcessFragment, Complete, Encode, Whole, Gapped, Held;
    FeedQueue(q, fs, f, size - |s.datagram|, m);
    StandsGapped(q, fs, m);
    Accepted(s.(queue := q), f, size, m);
  }

  lemma StandsGapped(q: seq<Fragment>, fs: seq<Fragment>, m: Message)
    requires StandsFor(q, fs, m)
    ensures Gapped(q)
  {
  }

  /** Nothing stands between an expected fragment and the queue. */
  lemma Accepted(s: RxState, f: Fragment, size: nat, m: Message)
    requires s.entity == Client && s.msgSeq == m.msgSeq && CutOf(f, m) && !VersionEnforced(s) && Gapped(s.queue)
    requires Reassemble(s.queue, f, size - |s.datagram|).Queued?
    requires Reassemble(s.queue, f, size - |s.datagram|).queue != []
    ensures var q := Reassemble(s.queue, f, size - |s.datagram|).queue;
      ProcessFragment(s, f, size).next
      == if Complete(q[0]) then s.(queue := [], msgSeq := (s.msgSeq + 1) % 0x1_0000, pending := Encode(q[0]))
         else s.(queue := q)
  {
  }

  /** After delivery, late fragments of the message change nothing. */
  lemma LateIgnored(s: RxState, f: Fragment, size: nat, m: Message)
    requires Expects(s, m) && CutOf(f, m)
    ensures ProcessFragment(Delivered(s, m), f, size).next == Delivered(s, m)
  {
  }

  /** Fragments cut from the expected message, in any order, with any repeats and overlaps, and
      with room for each when it arrives: the message is handed up exactly when they cover it, as a whole
      and once, and the next message is expected then. */
  lemma {:induction false} HandedUpIffCovered(s: RxState, fs: seq<Fragment>, size: nat, m: Message)
    requires Expects(s, m) && size < 0x100_0000 && RoomFor(fs, m, size - |s.datagram|)
    requires forall f :: f in fs ==> f.WireSized() && CutOf(f, m)
    ensures var r := Feed(s, fs, size);
      if Whole(fs, m) then r == Delivered(s, m)
      else r == s.(queue := r.queue) && StandsFor(r.queue, fs, m)
  {
    if fs != [] {
      var init, f := fs[..|fs| - 1], fs[|fs| - 1];
      assert fs == init + [f];
      RoomForPrefix(init, f, m, size - |s.datagram|);
      HandedUpIffCovered(s, init, size, m);
      if Whole(init, m) {
        LateIgnored(s, f, size, m);
        forall x | 0 <= x < |m.body| ensures Covers(fs, x) { CoversSnoc(init, f, x); }
      } else {
        FeedOne(s, Feed(s, init, size).queue, init, f, size, m);
      }
    }
  }
}
