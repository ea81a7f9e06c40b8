/** The byte-level side of reassembly: which octets the two block moves of the coalescing
    pass touch, and what they leave in the buffer. */
module ReassemblyMoves {
  import opened Bytes
  import opened Fragments
  import opened Reassembly
  import ReceiveSpec

  /** Dropping an entry at position pos moves (queue length - entry length) octets starting
      right behind the entry, although only (queue length - entry length - pos) of them
      belong to the queue: the move reads up to pos + queue length, and writes up to the same
      place less the entry. This predicate follows the pass and says that no such move reads
      beyond size or writes beyond limit. at is where prev is stored. */
  predicate MovesFit(at: nat, prev: Fragment, rest: seq<Fragment>, limit: nat, size: nat)
    requires Ascending([prev] + rest)
    decreases |rest|
  {
    rest == [] ||
    (AscendingTail(prev, rest);
     var f, pos := rest[0], at + |Encode(prev)|;
     if f.offset > prev.End() then MovesFit(pos, f, rest[1..], limit, size)
     else if f.End() > prev.End() then MovesFit(at, Join(prev, f), rest[1..], limit, size)
     else
       && DropFits(pos, pos + |EncodeQueue(rest)|, f, limit, size)
       && MovesFit(at, prev, rest[1..], limit, size))
  }

  /** Dropping f at pos from a queue of n octets. */
  predicate DropFits(pos: nat, n: nat, f: Fragment, limit: int, size: nat) {
    pos + n <= size && pos + n <= limit + |Encode(f)|
  }

  /** The same for a whole call: the pass runs over the queue with f inserted. */
  predicate CallFits(q: seq<Fragment>, f: Fragment, limit: nat, size: nat)
    requires Gapped(q)
  {
    InsertAscending(q, f);
    var s := Insert(q, f);
    assert s == [s[0]] + s[1..];
    MovesFit(0, s[0], s[1..], limit, size)
  }

  // ----- When the moves fit, in closed form -----

  /** How many octets joining f to the entry in front of it saves. */
  function Saved(q: seq<Fragment>, f: Fragment): (n: nat)
    ensures n <= HEADER_LEN + |f.data|
  {
    var i := InsertIndex(q, f.offset);
    if i > 0 && f.offset <= q[i - 1].End() < f.End() then HEADER_LEN + q[i - 1].End() - f.offset else 0
  }

  /** Only the first drop counts: either f itself, contained in the entry in front of it, or
      the entry behind f, contained in f. */
  predicate DropsFit(q: seq<Fragment>, f: Fragment, limit: int, size: nat) {
    var i, n := InsertIndex(q, f.offset), |EncodeQueue(q)| + |Encode(f)|;
    var p := |EncodeQueue(q[..i])|;
    if i > 0 && f.End() <= q[i - 1].End() then DropFits(p, n, f, limit, size)
    else if i < |q| && q[i].End() <= f.End() then
      DropFits(p + |Encode(f)| - Saved(q, f), n - Saved(q, f), q[i], limit, size)
    else true
  }

  /** No two entries of a gapped queue interact. */
  lemma {:induction false} GappedFits(at: nat, prev: Fragment, rest: seq<Fragment>, limit: nat, size: nat)
    requires Ascending([prev] + rest) && Gapped(rest) && (rest != [] ==> prev.End() < rest[0].offset)
    ensures MovesFit(at, prev, rest, limit, size)
    decreases |rest|
  {
    if rest != [] {
      AscendingTail(prev, rest);
      GappedFits(at + |Encode(prev)|, rest[0], rest[1..], limit, size);
    }
  }

  /** In front of a gapped rest the first entry decides. */
  lemma {:induction false} FirstDecides(at: nat, prev: Fragment, rest: seq<Fragment>, limit: nat, size: nat)
    requires Ascending([prev] + rest) && Gapped(rest)
    ensures var pos := at + |Encode(prev)|;
      MovesFit(at, prev, rest, limit, size) <==>
        rest == [] || rest[0].End() > prev.End() || DropFits(pos, pos + |EncodeQueue(rest)|, rest[0], limit, size)
    decreases |rest|
  {
    if rest != [] {
      AscendingTail(prev, rest);
      var f, tail := rest[0], rest[1..];
      if f.offset > prev.End() {
        GappedFits(at + |Encode(prev)|, f, tail, limit, size);
      } else if f.End() > prev.End() {
        GappedFits(at, Join(prev, f), tail, limit, size);
      } else {
        FirstDecides(at, prev, tail, limit, size);
      }
    }
  }

  /** The entries in front of the insertion are passed one by one. */
  lemma {:induction false} PassFront(at: nat, front: seq<Fragment>, tail: seq<Fragment>, limit: nat, size: nat)
    requires front != [] && Gapped(front) && Ascending(front + tail)
    ensures var last := front[|front| - 1];
      && Ascending([front[0]] + (front[1..] + tail)) && Ascending([last] + tail)
      && (MovesFit(at, front[0], front[1..] + tail, limit, size)
          <==> MovesFit(at + |EncodeQueue(front[..|front| - 1])|, last, tail, limit, size))
    decreases |front|
  {
    FrontParts(front, tail);
    if |front| > 1 {
      hide MovesFit, Encode, Gapped, Ascending;
      PassOne(at, front, tail, limit, size);
      PassFront(at + |Encode(front[0])|, front[1..], tail, limit, size);
    }
  }

  /** The shapes of front and tail that the walk goes through. */
  lemma FrontParts(front: seq<Fragment>, tail: seq<Fragment>)
    requires front != [] && Gapped(front) && Ascending(front + tail)
    ensures Ascending([front[0]] + (front[1..] + tail)) && Ascending([front[|front| - 1]] + tail)
    ensures if |front| == 1 then front[1..] + tail == tail && EncodeQueue(front[..0]) == []
      else
        && Gapped(front[1..]) && Ascending(front[1..] + tail) && front[1..][|front| - 2] == front[|front| - 1]
        && |EncodeQueue(front[..|front| - 1])| == |Encode(front[0])| + |EncodeQueue(front[1..][..|front| - 2])|
  {
    assert [front[0]] + (front[1..] + tail) == front + tail;
    assert [front[|front| - 1]] + tail == (front + tail)[|front| - 1..];
    if |front| > 1 {
      assert front[1..] + tail == (front + tail)[1..];
      assert front[..|front| - 1][1..] == front[1..][..|front| - 2];
    }
  }

  lemma PassOne(at: nat, front: seq<Fragment>, tail: seq<Fragment>, limit: nat, size: nat)
    requires |front| > 1 && Gapped(front) && Ascending([front[0]] + (front[1..] + tail))
    requires Ascending(front[1..] + tail)
    ensures Ascending([front[1]] + (front[1..][1..] + tail))
    ensures MovesFit(at, front[0], front[1..] + tail, limit, size)
      == MovesFit(at + |Encode(front[0])|, front[1], front[1..][1..] + tail, limit, size)
  {
    var rest := front[1..] + tail;
    assert rest[0] == front[1] && rest[1..] == front[1..][1..] + tail && [rest[0]] + rest[1..] == rest;
  }

  /** The moves of a call fit exactly when the first drop does. */
  lemma CallFitsIff(q: seq<Fragment>, f: Fragment, limit: nat, size: nat)
    requires Gapped(q)
    ensures CallFits(q, f, limit, size) <==> DropsFit(q, f, limit, size)
  {
    InsertAscending(q, f);
    InsertIndexSplits(q, f.offset);
    InsertSizes(q, f);
    var i := InsertIndex(q, f.offset);
    hide InsertIndex, EncodeQueue, Encode, MovesFit, DropFits;
    if i == 0 {
      var s := Insert(q, f);
      assert q[..0] == [] && s == [f] + q && s[1..] == q;
      FirstDecides(0, f, q, limit, size);
      NoQueue();
    } else {
      CallFitsBehind(q, f, i, limit, size);
    }
  }

  lemma NoQueue()
    ensures EncodeQueue([]) == []
  {
  }

  lemma CallFitsBehind(q: seq<Fragment>, f: Fragment, i: nat, limit: nat, size: nat)
    requires Gapped(q) && Ascending(Insert(q, f)) && i == InsertIndex(q, f.offset) > 0
    requires q[i - 1].offset <= f.offset
    ensures CallFits(q, f, limit, size) <==> DropsFit(q, f, limit, size)
  {
    hide *;
    InsertParts(q, f, i);
    PassFront(0, q[..i], [f] + q[i..], limit, size);
    AfterFront(|EncodeQueue(q[..i][..i - 1])|, q[i - 1], f, q[i..], limit, size);
    CallFitsIs(q, f, i, limit, size);
    DropsFitIs(q, f, i, limit, size);
  }

  lemma CallFitsIs(q: seq<Fragment>, f: Fragment, i: nat, limit: nat, size: nat)
    requires Gapped(q) && i == InsertIndex(q, f.offset) > 0
    ensures var front, tail := q[..i], [f] + q[i..];
      && front != [] && Ascending([front[0]] + (front[1..] + tail))
      && CallFits(q, f, limit, size) == MovesFit(0, front[0], front[1..] + tail, limit, size)
  {
    InsertAscending(q, f);
    InsertParts(q, f, i);
    hide MovesFit;
  }

  lemma DropsFitIs(q: seq<Fragment>, f: Fragment, i: nat, limit: nat, size: nat)
    requires i == InsertIndex(q, f.offset) > 0
    ensures var prev, back := q[i - 1], q[i..];
      var p := |EncodeQueue(q[..i][..i - 1])| + |Encode(prev)|;
      var n := p + |Encode(f)| + |EncodeQueue(back)|;
      var saved := if f.offset <= prev.End() then HEADER_LEN + prev.End() - f.offset else 0;
      DropsFit(q, f, limit, size) ==
        if f.End() <= prev.End() then DropFits(p, n, f, limit, size)
        else back == [] || back[0].End() > f.End()
             || DropFits(p + |Encode(f)| - saved, n - saved, back[0], limit, size)
  {
    InsertSizes(q, f);
    Lengths(f);
    hide DropFits, EncodeQueue, Encode, InsertIndex;
  }

  /** The queue with f inserted, seen around the entry in front of f. */
  lemma InsertParts(q: seq<Fragment>, f: Fragment, i: nat)
    requires Gapped(q) && i == InsertIndex(q, f.offset) > 0
    ensures var front, back, s := q[..i], q[i..], Insert(q, f);
      && i <= |q| && front != [] && s != [] && front[0] == s[0] && front[i - 1] == q[i - 1]
      && s == front + ([f] + back) && s[1..] == front[1..] + ([f] + back) && [s[0]] + s[1..] == s
      && Ascending(s) && Gapped(front) && Gapped([q[i - 1]] + back)
  {
    hide *;
    InsertAscending(q, f);
    GappedParts(q, i);
    InsertIs(q, f);
    AroundInsert(q, f, i, Insert(q, f));
  }

  lemma InsertIs(q: seq<Fragment>, f: Fragment)
    ensures var i := InsertIndex(q, f.offset); Insert(q, f) == q[..i] + [f] + q[i..]
  {
  }

  lemma AroundInsert(q: seq<Fragment>, f: Fragment, i: nat, s: seq<Fragment>)
    requires 0 < i <= |q| && s == q[..i] + [f] + q[i..]
    ensures q[..i] != [] && q[..i][0] == s[0] && q[..i][i - 1] == q[i - 1]
    ensures s == q[..i] + ([f] + q[i..]) && s[1..] == q[..i][1..] + ([f] + q[i..]) && [s[0]] + s[1..] == s
  {
  }

  lemma GappedParts(q: seq<Fragment>, i: nat)
    requires Gapped(q) && 0 < i <= |q|
    ensures Gapped(q[..i]) && Gapped([q[i - 1]] + q[i..])
  {
    assert [q[i - 1]] + q[i..] == q[i - 1..];
  }

  lemma Lengths(f: Fragment)
    ensures |Encode(f)| == HEADER_LEN + |f.data| && f.End() == f.offset + |f.data|
  {
  }

  /** The pass from the entry in front of f on. */
  lemma AfterFront(at: nat, prev: Fragment, f: Fragment, back: seq<Fragment>, limit: nat, size: nat)
    requires Ascending([prev] + ([f] + back)) && Gapped([prev] + back) && prev.offset <= f.offset
    ensures var p := at + |Encode(prev)|;
      var n := p + |Encode(f)| + |EncodeQueue(back)|;
      var saved := if f.offset <= prev.End() then HEADER_LEN + prev.End() - f.offset else 0;
      MovesFit(at, prev, [f] + back, limit, size) <==>
        if f.End() <= prev.End() then DropFits(p, n, f, limit, size)
        else back == [] || back[0].End() > f.End()
             || DropFits(p + |Encode(f)| - saved, n - saved, back[0], limit, size)
  {
    AfterStep(at, prev, f, back, limit, size);
    Tail(prev, f, back);
    Lengths(prev);
    Lengths(f);
    hide EncodeQueue, Encode, MovesFit, DropFits, Gapped, Ascending;
    if f.offset > prev.End() {
      FirstDecides(at + |Encode(prev)|, f, back, limit, size);
    } else if f.End() > prev.End() {
      var j := Join(prev, f);
      Lengths(j);
      FirstDecides(at, j, back, limit, size);
    } else {
      GappedFits(at, prev, back, limit, size);
    }
  }

  lemma Tail(prev: Fragment, f: Fragment, back: seq<Fragment>)
    requires Ascending([prev] + ([f] + back)) && Gapped([prev] + back)
    ensures Ascending([f] + back) && Gapped(back)
    ensures forall p: Fragment :: p.offset == prev.offset ==> Ascending([p] + back)
    ensures back != [] ==> prev.End() < back[0].offset
  {
    var rest, g := [f] + back, [prev] + back;
    assert rest[1..] == back && g[1..] == back;
    AscendingTail(prev, rest);
    if back != [] { assert g[0].End() < g[1].offset; }
  }

  lemma AfterStep(at: nat, prev: Fragment, f: Fragment, back: seq<Fragment>, limit: nat, size: nat)
    requires Ascending([prev] + ([f] + back)) && Gapped([prev] + back) && prev.offset <= f.offset
    ensures Ascending([f] + back) && forall p: Fragment :: p.offset == prev.offset ==> Ascending([p] + back)
    ensures var pos := at + |Encode(prev)|;
      MovesFit(at, prev, [f] + back, limit, size) <==>
        if f.offset > prev.End() then MovesFit(pos, f, back, limit, size)
        else if f.End() > prev.End() then MovesFit(at, Join(prev, f), back, limit, size)
        else
          && DropFits(pos, pos + |Encode(f)| + |EncodeQueue(back)|, f, limit, size)
          && MovesFit(at, prev, back, limit, size)
  {
    Tail(prev, f, back);
    var rest := [f] + back;
    assert rest[0] == f && rest[1..] == back;
    AscendingTail(prev, rest);
    hide Gapped, Encode, DropFits;
  }

  /** The lengths of the parts of a queue around the insertion. */
  lemma InsertSizes(q: seq<Fragment>, f: Fragment)
    ensures var i := InsertIndex(q, f.offset);
      && |EncodeQueue(q)| == |EncodeQueue(q[..i])| + |EncodeQueue(q[i..])|
      && (i > 0 ==> |EncodeQueue(q[..i])| == |EncodeQueue(q[..i][..i - 1])| + |Encode(q[i - 1])|)
      && (i < |q| ==> |EncodeQueue(q[..i])| + |Encode(q[i])| <= |EncodeQueue(q)|)
  {
    var i := InsertIndex(q, f.offset);
    assert q == q[..i] + q[i..];
    EncodeQueueConcat(q[..i], q[i..]);
    if i > 0 {
      EncodeQueueSplit(q, i - 1);
      assert q[..i][..i - 1] == q[..i - 1];
    }
    if i < |q| { EncodeQueueSplit(q, i); }
  }

  /** Whatever is dropped, twice the grown queue is room enough. */
  lemma DropsFitTwice(q: seq<Fragment>, f: Fragment, limit: int, size: nat)
    requires 2 * (|EncodeQueue(q)| + |Encode(f)|) <= limit <= size
    ensures DropsFit(q, f, limit, size)
  {
    InsertSizes(q, f);
  }

  // ----- Where the arriving fragment lies -----

  /** Making room at pos in a queue of n octets leaves the l octets at position at alone,
      whatever the buffer contains. */
  ghost predicate Survives(size: nat, n: nat, pos: nat, l: nat, at: nat)
    requires pos <= n && n + l <= size && at + l <= size
  {
    forall s: seq<byte> | |s| == size :: Moved(s, pos + l, pos, n - pos)[at..at + l] == s[at..at + l]
  }

  /** A fragment behind the queue survives that move, and is then copied by a memcpy whose
      operands are disjoint, exactly when it lies behind the grown queue. */
  lemma SurvivesIff(size: nat, n: nat, pos: nat, l: nat, at: nat)
    requires pos <= n <= at && n + l <= size && at + l <= size && l > 0
    ensures Survives(size, n, pos, l, at) && (pos + l <= at || at + l <= pos) <==> n + l <= at
  {
    if n + l <= at {
      forall s: seq<byte> | |s| == size ensures Moved(s, pos + l, pos, n - pos)[at..at + l] == s[at..at + l] {
        MovedKeeps(s, pos + l, pos, n - pos, at, at + l);
      }
    } else if pos + l <= at {
      var s := seq(size, k requires 0 <= k < size => if k == at then 1 else 0 as byte);
      var t := Moved(s, pos + l, pos, n - pos);
      assert t[at] == s[at - l] == 0 && s[at] == 1;
      assert t[at..at + l][0] == t[at] && s[at..at + l][0] == s[at];
    }
  }

  /** The least receive buffer that can be configured. */
  const MIN_BUFFER: nat := 512 + ReceiveSpec.RECORD_HEADER_LEN + 512

  /** A record that ends the buffer and holds just f: in front of it lie its header and the queue,
      and the space check lets it pass. */
  ghost predicate Receivable(q: seq<Fragment>, f: Fragment, size: nat) {
    && QueueInv(q) && f.WireSized() && f.data != [] && f.End() <= f.length
    && |EncodeQueue(q)| + ReceiveSpec.RECORD_HEADER_LEN + |Encode(f)| <= size
    && Reassemble(q, f, size).Queued?
  }

  /** Two fragments of one message, received one after the other in the least buffer, the second
      a duplicate of an octet of the first: the move that drops it reads past the end. */
  lemma SpaceCheckIsNotEnough()
    ensures exists e: Fragment, f: Fragment ::
      && Receivable([], e, MIN_BUFFER) && Reassemble([], e, MIN_BUFFER).queue == [e]
      && Receivable([e], f, MIN_BUFFER)
      && |EncodeQueue([e])| + |Encode(f)| <= MIN_BUFFER - |Encode(f)|
      && !CallFits([e], f, MIN_BUFFER, MIN_BUFFER)
  {
    var e, f := Fragment(11, 600, 2, 0, seq(501, _ => 0)), Fragment(11, 600, 2, 0, [0]);
    First(e, MIN_BUFFER);
    Second(e, f, MIN_BUFFER);
    assert InsertIndex([e], 0) == 1;
    CallFitsIff([e], f, MIN_BUFFER, MIN_BUFFER);
  }

  /** The check does not see where the arriving fragment lies either: here the second of two
      fragments comes first in the message, and making room for it overwrites it. */
  lemma ArrivingFragmentOverwritten()
    ensures exists e: Fragment, f: Fragment, s: seq<byte> ::
      var n, l := |EncodeQueue([e])|, |Encode(f)|;
      && Receivable([], e, MIN_BUFFER) && Reassemble([], e, MIN_BUFFER).queue == [e]
      && Receivable([e], f, MIN_BUFFER)
      && |s| == MIN_BUFFER && s[..n] == EncodeQueue([e]) && s[|s| - l..] == Encode(f)
      && InsertIndex([e], f.offset) == 0
      && Moved(s, l, 0, n)[|s| - l..] != Encode(f)
  {
    var e, f := Fragment(11, 900, 2, 300, seq(501, _ => 0)), Fragment(11, 900, 2, 0, seq(288, _ => 0));
    First(e, MIN_BUFFER);
    Second(e, f, MIN_BUFFER);
    var s := Encode(e) + seq(224, _ => 0) + Encode(f);
    assert s[..513] == Encode(e) && s[737..] == Encode(f);
    var t := Moved(s, 300, 0, 513);
    assert t[737] == s[437] == Encode(e)[437] == 0;
    assert t[737..][0] == t[737] && Encode(f)[0] == 11;
  }

  lemma First(e: Fragment, size: nat)
    requires e.WireSized() && e.data != [] && e.End() <= e.length && ReceiveSpec.RECORD_HEADER_LEN + |Encode(e)| <= size
    ensures Receivable([], e, size) && Reassemble([], e, size).queue == [e] && EncodeQueue([e]) == Encode(e)
  {
    hide Encode, Header, Sweep, Insert;
    EncodeQueueSingleton(e);
    SweepAlone(e);
  }

  lemma SweepAlone(e: Fragment)
    ensures Insert([], e) == [e] && Sweep(e, []) == [e] && [e][1..] == []
  {
    assert Insert([], e) == [] + [e] + [];
  }

  lemma Second(e: Fragment, f: Fragment, size: nat)
    requires e.WireSized() && f.WireSized() && f.data != [] && f.End() <= f.length && f.SameMessage(e)
    requires |Encode(e)| + ReceiveSpec.RECORD_HEADER_LEN + |Encode(f)| <= size
    ensures Receivable([e], f, size)
  {
    hide Encode, Header, Sweep, Insert;
    EncodeQueueSingleton(e);
    assert !Mismatch([e], f) by { assert !Mismatch([e][1..], f); }
  }

  // ----- Effect of each move on the stored queue -----

  /** Opening a gap of |e| octets at pos and writing e there. */
  lemma InsertBytes(s: seq<byte>, n: nat, pos: nat, e: seq<byte>, s1: seq<byte>, s2: seq<byte>)
    requires pos <= n && n + |e| <= |s|
    requires s1 == Moved(s, pos + |e|, pos, n - pos)
    requires s2 == Overwritten(s1, pos, e)
    ensures |s2| == |s|
    ensures s2[..n + |e|] == s[..pos] + e + s[pos..n]
    ensures SameFrom(s, s2, n + |e|)
  {
  }

  /** Coalescing, the move: the octets of f and everything behind it slide onto prev. */
  lemma JoinMove(s: seq<byte>, n: nat, before: seq<byte>, prev: Fragment, f: Fragment, after: seq<byte>,
                 s1: seq<byte>, dst: nat, src: nat)
    requires n <= |s| && s[..n] == before + Encode(prev) + Encode(f) + after
    requires prev.offset <= f.offset <= prev.End()
    requires dst == |before| + HEADER_LEN + f.offset - prev.offset
    requires src == |before| + |Encode(prev)| + HEADER_LEN
    requires src <= n && dst <= src && s1 == Moved(s, dst, src, n - src)
    ensures |s1| == |s|
    ensures s1[..dst + n - src] == before + Header(prev) + (Join(prev, f).data + after)
    ensures SameFrom(s, s1, dst + n - src)
  {
    var k := f.offset - prev.offset;
    JoinKeep(s, n, before, prev, Encode(f) + after, k);
    BehindHeader(s, n, before + Encode(prev), f, after);
    hide Encode, Header;
    assert s1[..dst + n - src] == s[..dst] + s[src..n];
  }

  /** Behind the header of f come its octets and what follows. */
  lemma BehindHeader(s: seq<byte>, n: nat, before: seq<byte>, f: Fragment, after: seq<byte>)
    requires n <= |s| && s[..n] == before + Encode(f) + after
    ensures |before| + HEADER_LEN <= n && s[|before| + HEADER_LEN..n] == f.data + after
  {
    assert s[|before| + HEADER_LEN..n] == s[..n][|before| + HEADER_LEN..];
    assert Encode(f)[HEADER_LEN..] == f.data;
  }

  /** Coalescing, the fix of the length field. */
  lemma JoinPatch(s: seq<byte>, m: nat, before: seq<byte>, prev: Fragment, f: Fragment, after: seq<byte>, r: seq<byte>)
    requires prev.offset <= f.offset <= prev.End()
    requires m <= |s| && s[..m] == before + Header(prev) + (Join(prev, f).data + after)
    requires |before| + 12 <= |s| && r == Overwritten(s, |before| + 9, Store24(|Join(prev, f).data|))
    ensures |r| == |s|
    ensures r[..m] == before + Encode(Join(prev, f)) + after
    ensures SameFrom(s, r, m)
  {
    JoinHeader(prev, f);
    PatchLength(s, m, before, prev, Store24(|Join(prev, f).data|), Join(prev, f).data + after, r);
  }

  lemma JoinKeep(s: seq<byte>, n: nat, before: seq<byte>, prev: Fragment, rest: seq<byte>, k: nat)
    requires n <= |s| && s[..n] == before + Encode(prev) + rest
    requires k <= |prev.data|
    ensures s[..|before| + HEADER_LEN + k] == before + Header(prev) + prev.data[..k]
  {
    assert s[..|before| + HEADER_LEN + k] == s[..n][..|before| + HEADER_LEN + k];
  }

  lemma PatchLength(s: seq<byte>, m: nat, before: seq<byte>, f: Fragment, field: seq<byte>, tail: seq<byte>,
                    r: seq<byte>)
    requires m <= |s| && s[..m] == before + Header(f) + tail
    requires |field| == 3
    requires |before| + 12 <= |s| && r == Overwritten(s, |before| + 9, field)
    ensures |r| == |s|
    ensures r[..m] == before + (Header(f)[..9] + field) + tail
    ensures SameFrom(s, r, m)
  {
    var t := s[..m];
    assert t[..|before| + 9] == before + Header(f)[..9];
    assert t[|before| + 12..] == tail;
    assert r[..m] == t[..|before| + 9] + field + t[|before| + 12..];
  }

  lemma JoinHeader(prev: Fragment, f: Fragment)
    requires prev.offset <= f.offset <= prev.End()
    ensures Header(Join(prev, f)) == Header(prev)[..9] + Store24(|Join(prev, f).data|)
  {
  }

  /** Dropping: everything behind f, which stands at pos and has l octets, slides over it. */
  lemma DropBytes(s: seq<byte>, n: nat, before: seq<byte>, f: Fragment, after: seq<byte>, s1: seq<byte>, pos: nat,
                  l: nat)
    requires n <= |s| && s[..n] == before + Encode(f) + after
    requires pos == |before| && l == |Encode(f)|
    requires pos + l + (n - l) <= |s|
    requires s1 == Moved(s, pos, pos + l, n - l)
    ensures |s1| == |s|
    ensures s1[..n - l] == before + after
  {
    assert s[..pos] == s[..n][..pos];
    assert s[pos + l..n] == s[..n][pos + l..];
    assert s1[..n - l] == s[..pos] + s[pos + l..n];
  }
}
