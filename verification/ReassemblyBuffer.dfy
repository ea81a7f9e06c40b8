/** dtlsReassembleHandshakeMessage in place: the queue lives at the front of the receive
    buffer, the arriving fragment further back in the same buffer. */
module ReassemblyBuffer {
  import opened Bytes
  import opened Fragments
  import opened Reassembly
  import opened ReassemblyMoves

  /** The queue occupies exactly the first n octets. */
  ghost predicate Stored(s: seq<byte>, n: nat, q: seq<Fragment>) {
    n <= |s| && s[..n] == EncodeQueue(q)
  }

  /** The arriving fragment lies behind the grown queue, and the block moves of the call neither
      leave a buffer of the given size nor write beyond limit. */
  predicate Apart(q: seq<Fragment>, f: Fragment, at: int, limit: int, size: nat) {
    |EncodeQueue(q)| + |Encode(f)| <= at && at + |Encode(f)| <= limit <= size && DropsFit(q, f, limit, size)
  }

  /** The fields of the entry stored at its place. */
  lemma EntryAt(s: seq<byte>, n: nat, q: seq<Fragment>, i: nat, pos: nat)
    requires Stored(s, n, q) && AllWireSized(q) && i < |q| && pos == |EncodeQueue(q[..i])|
    ensures pos + |Encode(q[i])| == |EncodeQueue(q[..i + 1])| <= n
    ensures s[pos] == q[i].msgType && Load24(s, pos + 1) == q[i].length
    ensures Load24(s, pos + 6) == q[i].offset && Load24(s, pos + 9) == |q[i].data|
  {
    hide *;
    EncodeQueueSplit(q, i);
    EntrySlice(s, n, q, i, pos);
    DecodeEncode(s, pos, q[i]);
    DecodedFields(s, pos, q[i]);
  }

  lemma EntrySlice(s: seq<byte>, n: nat, q: seq<Fragment>, i: nat, pos: nat)
    requires Stored(s, n, q) && AllWireSized(q) && i < |q| && pos == |EncodeQueue(q[..i])|
    ensures pos + |Encode(q[i])| <= n <= |s| && s[pos..pos + |Encode(q[i])|] == Encode(q[i]) && q[i].WireSized()
  {
    EncodeQueueSplit(q, i);
    hide EncodeQueue, Encode;
    var e := Encode(q[i]);
    assert s[pos..pos + |e|] == s[..n][pos..pos + |e|];
  }

  lemma DecodedFields(s: seq<byte>, p: nat, f: Fragment)
    requires p + |Encode(f)| <= |s| && Load24(s, p + 9) == |f.data| && Decode(s, p) == f
    ensures p + 12 <= |s| && s[p] == f.msgType && Load24(s, p + 1) == f.length
    ensures Load24(s, p + 6) == f.offset && Load24(s, p + 9) == |f.data|
  {
  }

  /** The first entry that lies beyond the arriving offset, unless the walk meets an entry of
      another message. */
  method FindPosition(buffer: array<byte>, queueLen: nat, msgType: byte, length: nat, fragOffset: nat,
                      ghost q: seq<Fragment>, ghost f: Fragment)
    returns (ok: bool, pos: nat)
    requires Stored(buffer[..], queueLen, q) && AllWireSized(q)
    requires msgType == f.msgType && length == f.length && fragOffset == f.offset
    ensures ok <==> !Mismatch(q, f)
    ensures ok ==> pos == |EncodeQueue(q[..InsertIndex(q, f.offset)])|
  {
    ghost var i := 0;
    pos, ok := 0, true;
    assert q[..0] == [] && q[0..] == q && q[..|q|] == q;
    while pos < queueLen
      invariant i <= |q| && pos == |EncodeQueue(q[..i])| <= queueLen
      invariant Mismatch(q, f) == Mismatch(q[i..], f)
      invariant InsertIndex(q, f.offset) == i + InsertIndex(q[i..], f.offset)
      decreases queueLen - pos
    {
      EntryAt(buffer[..], queueLen, q, i, pos);
      assert q[i..][0] == q[i] && q[i..][1..] == q[i + 1..];
      if msgType != buffer[pos] {
        return false, pos;
      }
      if length != Load24(buffer[..], pos + 1) {
        return false, pos;
      }
      if fragOffset < Load24(buffer[..], pos + 6) {
        return;
      }
      pos := pos + Load24(buffer[..], pos + 9) + HEADER_LEN;
      i := i + 1;
    }
    if i < |q| { EncodeQueueSplit(q, i); }
  }

  /** Makes room at pos and copies the fragment there. */
  method InsertFragment(buffer: array<byte>, queueLen: nat, pos: nat, at: nat, fragLength: nat,
                        ghost q: seq<Fragment>, ghost f: Fragment)
    requires Stored(buffer[..], queueLen, q)
    requires fragLength == |Encode(f)| && queueLen + fragLength <= at && at + fragLength <= buffer.Length
    requires buffer[at..at + fragLength] == Encode(f)
    requires pos == |EncodeQueue(q[..InsertIndex(q, f.offset)])|
    modifies buffer
    ensures Stored(buffer[..], queueLen + fragLength, Insert(q, f))
    ensures SameFrom(old(buffer[..]), buffer[..], queueLen + fragLength)
  {
    hide *;
    ghost var before := buffer[..];
    EncodedPrefix(before, queueLen, q, InsertIndex(q, f.offset));
    Memmove(buffer, pos + fragLength, pos, queueLen - pos);
    ghost var moved := buffer[..];
    AheadOfGap(before, moved, pos, fragLength, queueLen, at);
    Memcpy(buffer, pos, at, fragLength);
    InsertStored(before, moved, buffer[..], queueLen, pos, q, f);
  }

  /** The arriving fragment is not touched by the first move; the second one stores it. */
  lemma AheadOfGap(s: seq<byte>, s1: seq<byte>, pos: nat, l: nat, n: nat, at: nat)
    requires pos <= n && n + l <= at && at + l <= |s| && s1 == Moved(s, pos + l, pos, n - pos)
    ensures s1[at..at + l] == s[at..at + l]
    ensures Moved(s1, pos, at, l) == Overwritten(s1, pos, s[at..at + l])
  {
    MovedKeeps(s, pos + l, pos, n - pos, at, at + l);
  }

  lemma EncodedPrefix(s: seq<byte>, n: nat, q: seq<Fragment>, i: nat)
    requires Stored(s, n, q) && i <= |q|
    ensures |EncodeQueue(q[..i])| <= n <= |s|
  {
    assert q == q[..i] + q[i..];
    EncodeQueueConcat(q[..i], q[i..]);
  }

  lemma InsertStored(s: seq<byte>, s1: seq<byte>, s2: seq<byte>, n: nat, pos: nat, q: seq<Fragment>, f: Fragment)
    requires Stored(s, n, q) && n + |Encode(f)| <= |s|
    requires pos == |EncodeQueue(q[..InsertIndex(q, f.offset)])| <= n
    requires s1 == Moved(s, pos + |Encode(f)|, pos, n - pos)
    requires s2 == Overwritten(s1, pos, Encode(f))
    ensures Stored(s2, n + |Encode(f)|, Insert(q, f))
    ensures SameFrom(s, s2, n + |Encode(f)|)
  {
    InsertedOctets(q, f);
    hide Encode, EncodeQueue, Insert;
    InsertBytes(s, n, pos, Encode(f), s1, s2);
    var i := InsertIndex(q, f.offset);
    assert s[..pos] == s[..n][..pos] == EncodeQueue(q[..i]);
    assert s[pos..n] == s[..n][pos..] == EncodeQueue(q[i..]);
  }

  lemma InsertedOctets(q: seq<Fragment>, f: Fragment)
    ensures var i := InsertIndex(q, f.offset);
      && EncodeQueue(q) == EncodeQueue(q[..i]) + EncodeQueue(q[i..])
      && EncodeQueue(Insert(q, f)) == EncodeQueue(q[..i]) + Encode(f) + EncodeQueue(q[i..])
  {
    var i := InsertIndex(q, f.offset);
    assert q == q[..i] + q[i..];
    EncodeQueueConcat(q[..i], q[i..]);
    EncodeQueueConcat(q[..i] + [f], q[i..]);
    EncodeQueueConcat(q[..i], [f]);
    EncodeQueueSingleton(f);
  }

  // ----- The coalescing pass -----

  /** The state of the pass: done, prev and rest are stored one after the other, finishing the
      pass from here yields what it yields from the start, and its moves fit the buffer and limit. */
  ghost predicate Sweeping(s: seq<byte>, n: nat, at: nat, done: seq<Fragment>, prev: Fragment, rest: seq<Fragment>,
                           result: seq<Fragment>, limit: nat)
  {
    && n <= |s| && s[..n] == EncodeQueue(done) + Encode(prev) + EncodeQueue(rest)
    && at == |EncodeQueue(done)|
    && prev.WireSized() && AllWireSized(rest) && Ascending([prev] + rest)
    && done + Sweep(prev, rest) == result
    && MovesFit(at, prev, rest, limit, |s|)
  }

  lemma SweepBegins(s: seq<byte>, n: nat, q: seq<Fragment>, limit: nat)
    requires q != [] && Ascending(q) && AllWireSized(q) && Stored(s, n, q)
    requires [q[0]] + q[1..] == q && MovesFit(0, q[0], q[1..], limit, |s|)
    ensures Sweeping(s, n, 0, [], q[0], q[1..], Coalesce(q), limit)
    ensures 12 == HEADER_LEN <= n <= |s| && Load24(s, 6) == q[0].offset && Load24(s, 9) == |q[0].data|
    ensures n <= limit <= |s| ==> SameFrom(s, s, limit)
  {
    assert q[..0] == [];
    EntryAt(s, n, q, 0, 0);
    assert [] + Encode(q[0]) == Encode(q[0]);
    assert [] + Sweep(q[0], q[1..]) == Sweep(q[0], q[1..]);
  }

  /** As long as the position is inside the queue there is a next entry, and it stands there. */
  lemma NextEntry(s: seq<byte>, n: nat, at: nat, pos: nat, done: seq<Fragment>, prev: Fragment, rest: seq<Fragment>,
                  result: seq<Fragment>, limit: nat)
    requires Sweeping(s, n, at, done, prev, rest, result, limit)
    requires pos == at + |Encode(prev)|
    ensures pos < n <==> rest != []
    ensures rest != [] ==>
      && pos + |Encode(rest[0])| <= n && rest[0].WireSized() && prev.offset <= rest[0].offset
      && Load24(s, pos + 6) == rest[0].offset && Load24(s, pos + 9) == |rest[0].data|
      && rest[0].End() == rest[0].offset + |rest[0].data| && prev.End() == prev.offset + |prev.data|
  {
    if rest != [] {
      var f := rest[0];
      AscendingTail(prev, rest);
      assert EncodeQueue(rest) == Encode(f) + EncodeQueue(rest[1..]);
      assert s[pos..pos + |Encode(f)|] == s[..n][pos..pos + |Encode(f)|] == Encode(f);
      DecodeEncode(s, pos, f);
    }
  }

  lemma SweepEnds(s: seq<byte>, n: nat, at: nat, done: seq<Fragment>, prev: Fragment, result: seq<Fragment>, limit: nat)
    requires Sweeping(s, n, at, done, prev, [], result, limit)
    ensures Stored(s, n, result)
  {
    EncodeQueueConcat(done, [prev]);
    EncodeQueueSingleton(prev);
    assert EncodeQueue(done) + Encode(prev) + [] == EncodeQueue(done) + Encode(prev);
  }

  /** The next entry does not interact with prev: prev is final. */
  lemma KeepEntry(s: seq<byte>, n: nat, at: nat, done: seq<Fragment>, prev: Fragment, rest: seq<Fragment>,
                  result: seq<Fragment>, limit: nat)
    requires rest != [] && Sweeping(s, n, at, done, prev, rest, result, limit)
    requires rest[0].offset > prev.End()
    ensures Sweeping(s, n, at + |Encode(prev)|, done + [prev], rest[0], rest[1..], result, limit)
  {
    var f, tail := rest[0], rest[1..];
    AscendingTail(prev, rest);
    EncodeQueueConcat(done, [prev]);
    EncodeQueueSingleton(prev);
    assert EncodeQueue(rest) == Encode(f) + EncodeQueue(tail);
    assert done + ([prev] + Sweep(f, tail)) == (done + [prev]) + Sweep(f, tail);
  }

  lemma StoredParts(s: seq<byte>, n: nat, at: nat, done: seq<Fragment>, prev: Fragment, rest: seq<Fragment>,
                    result: seq<Fragment>, limit: nat)
    requires rest != [] && Sweeping(s, n, at, done, prev, rest, result, limit)
    ensures n <= |s| && s[..n] == EncodeQueue(done) + Encode(prev) + Encode(rest[0]) + EncodeQueue(rest[1..])
    ensures at == |EncodeQueue(done)| && |Encode(rest[0])| == HEADER_LEN + |rest[0].data|
    ensures rest[0].offset <= prev.End() && rest[0].End() <= prev.End() ==>
      at + |Encode(prev)| + n <= |s| && at + |Encode(prev)| + n <= limit + |Encode(rest[0])|
  {
    AscendingTail(prev, rest);
    assert EncodeQueue(rest) == Encode(rest[0]) + EncodeQueue(rest[1..]);
  }

  lemma JoinShape(prev: Fragment, f: Fragment)
    requires prev.offset <= f.offset <= prev.End() < f.End()
    ensures Join(prev, f).offset == prev.offset
    ensures |Join(prev, f).data| == |prev.data| + (f.End() - prev.End())
    ensures prev.End() == prev.offset + |prev.data| && f.End() == f.offset + |f.data|
    ensures |Encode(prev)| == HEADER_LEN + |prev.data| && HEADER_LEN == 12
  {
  }

  /** Coalescing an overlapping entry into prev. */
  method JoinInPlace(buffer: array<byte>, n: nat, at: nat, pos: nat, prevOffset: nat, prevLength: nat,
                     fragOffset: nat, grow: nat, ghost done: seq<Fragment>, ghost prev: Fragment,
                     ghost rest: seq<Fragment>, ghost result: seq<Fragment>, ghost limit: nat)
    requires rest != [] && Sweeping(buffer[..], n, at, done, prev, rest, result, limit)
    requires n <= limit <= buffer.Length < 0x100_0000 && pos == at + |Encode(prev)|
    requires prevOffset == prev.offset && prevLength == |prev.data| && fragOffset == rest[0].offset
    requires prevOffset <= fragOffset <= prev.End() < rest[0].End() && grow == rest[0].End() - prev.End()
    modifies buffer
    ensures Sweeping(buffer[..], n - (|rest[0].data| - grow + HEADER_LEN), at, done, Join(prev, rest[0]), rest[1..],
                     result, limit)
    ensures SameFrom(old(buffer[..]), buffer[..], limit)
    ensures Join(prev, rest[0]).offset == prevOffset && |Join(prev, rest[0]).data| == prevLength + grow
  {
    hide *;
    ghost var f, tail := rest[0], rest[1..];
    ghost var before := buffer[..];
    ghost var front, after := EncodeQueue(done), EncodeQueue(tail);
    StoredParts(before, n, at, done, prev, rest, result, limit);
    JoinShape(prev, f);
    var to, from := at + HEADER_LEN + fragOffset - prevOffset, pos + HEADER_LEN;
    Memmove(buffer, to, from, n - pos - HEADER_LEN);
    ghost var moved := buffer[..];
    JoinMove(before, n, front, prev, f, after, moved, to, from);
    Write(buffer, at + 9, Store24(prevLength + grow));
    ghost var m := to + n - from;
    JoinPatch(moved, m, front, prev, f, after, buffer[..]);
    SameFromOn(before, moved, buffer[..], m, m, limit);
    JoinSweeps(before, buffer[..], n, m, at, done, prev, rest, result, limit);
  }

  lemma JoinSweeps(s: seq<byte>, t: seq<byte>, n: nat, m: nat, at: nat, done: seq<Fragment>, prev: Fragment,
                   rest: seq<Fragment>, result: seq<Fragment>, limit: nat)
    requires rest != [] && Sweeping(s, n, at, done, prev, rest, result, limit)
    requires prev.offset <= rest[0].offset <= prev.End() < rest[0].End()
    requires m <= |t| == |s| < 0x100_0000
    requires t[..m] == EncodeQueue(done) + Encode(Join(prev, rest[0])) + EncodeQueue(rest[1..])
    ensures Sweeping(t, m, at, done, Join(prev, rest[0]), rest[1..], result, limit)
  {
    AscendingTail(prev, rest);
    assert |Encode(Join(prev, rest[0]))| <= m;
    assert forall k :: 0 <= k < |rest[1..]| ==> rest[1..][k] == rest[k + 1];
  }

  /** Dropping an entry that prev contains. */
  method DropInPlace(buffer: array<byte>, n: nat, at: nat, pos: nat, fragLength: nat, ghost done: seq<Fragment>,
                     ghost prev: Fragment, ghost rest: seq<Fragment>, ghost result: seq<Fragment>, ghost limit: nat)
    requires rest != [] && Sweeping(buffer[..], n, at, done, prev, rest, result, limit)
    requires n <= limit <= buffer.Length && pos == at + |Encode(prev)|
    requires fragLength == |rest[0].data| && rest[0].offset <= prev.End() && rest[0].End() <= prev.End()
    modifies buffer
    ensures Sweeping(buffer[..], n - (fragLength + HEADER_LEN), at, done, prev, rest[1..], result, limit)
    ensures SameFrom(old(buffer[..]), buffer[..], limit)
  {
    hide *;
    var l := HEADER_LEN + fragLength;
    StoredParts(buffer[..], n, at, done, prev, rest, result, limit);
    ghost var before := buffer[..];
    Memmove(buffer, pos, pos + l, n - l);
    DropStep(before, buffer[..], n, at, pos, l, done, prev, rest, result, limit);
  }

  lemma DropStep(s: seq<byte>, t: seq<byte>, n: nat, at: nat, pos: nat, l: nat, done: seq<Fragment>, prev: Fragment,
                 rest: seq<Fragment>, result: seq<Fragment>, limit: nat)
    requires rest != [] && Sweeping(s, n, at, done, prev, rest, result, limit)
    requires rest[0].offset <= prev.End() && rest[0].End() <= prev.End()
    requires pos == at + |Encode(prev)| && l == HEADER_LEN + |rest[0].data| <= n <= limit <= |s|
    requires pos + n <= |s| && pos + n <= limit + l
    requires t == Moved(s, pos, pos + l, n - l)
    ensures Sweeping(t, n - l, at, done, prev, rest[1..], result, limit)
    ensures SameFrom(s, t, limit)
  {
    StoredParts(s, n, at, done, prev, rest, result, limit);
    hide *;
    DropBytes(s, n, EncodeQueue(done) + Encode(prev), rest[0], EncodeQueue(rest[1..]), t, pos, l);
    LimitKept(s, t, pos, l, n, limit);
    DropSweeps(s, t, n, at, done, prev, rest, result, limit);
  }

  lemma LimitKept(s: seq<byte>, s1: seq<byte>, pos: nat, l: nat, n: nat, limit: nat)
    requires l <= n && pos + n <= |s| && pos + n <= limit + l && limit <= |s|
    requires s1 == Moved(s, pos, pos + l, n - l)
    ensures SameFrom(s, s1, limit)
  {
  }

  lemma DropSweeps(s: seq<byte>, t: seq<byte>, n: nat, at: nat, done: seq<Fragment>, prev: Fragment,
                   rest: seq<Fragment>, result: seq<Fragment>, limit: nat)
    requires rest != [] && Sweeping(s, n, at, done, prev, rest, result, limit)
    requires rest[0].offset <= prev.End() && rest[0].End() <= prev.End()
    requires |Encode(rest[0])| <= n && n - |Encode(rest[0])| <= |t| == |s|
    requires t[..n - |Encode(rest[0])|] == EncodeQueue(done) + Encode(prev) + EncodeQueue(rest[1..])
    ensures Sweeping(t, n - |Encode(rest[0])|, at, done, prev, rest[1..], result, limit)
  {
    AscendingTail(prev, rest);
    assert forall k :: 0 <= k < |rest[1..]| ==> rest[1..][k] == rest[k + 1];
  }

  /** The coalescing pass. prev, found at prevPos, is the entry every following one is compared
      with; the entries in front of it are final. */
  method CoalesceQueue(buffer: array<byte>, queueLen: nat, ghost q: seq<Fragment>, ghost limit: nat)
    returns (newLen: nat)
    requires q != [] && Ascending(q) && AllWireSized(q) && Stored(buffer[..], queueLen, q)
    requires buffer.Length < 0x100_0000 && queueLen <= limit <= buffer.Length
    requires [q[0]] + q[1..] == q && MovesFit(0, q[0], q[1..], limit, buffer.Length)
    modifies buffer
    ensures newLen <= queueLen && Stored(buffer[..], newLen, Coalesce(q))
    ensures SameFrom(old(buffer[..]), buffer[..], limit)
  {
    hide *;
    newLen := queueLen;
    ghost var start := buffer[..];
    ghost var done, prev, rest, result := [], q[0], q[1..], Coalesce(q);
    var prevPos: nat := 0;
    SweepBegins(buffer[..], queueLen, q, limit);
    var prevFragOffset := Load24(buffer[..], 6);
    var prevFragLength := Load24(buffer[..], 9);
    var pos := prevFragLength + HEADER_LEN;
    while pos < newLen
      invariant newLen <= queueLen && prevPos + |Encode(prev)| == pos
      invariant prevFragOffset == prev.offset && prevFragLength == |prev.data|
      invariant Sweeping(buffer[..], newLen, prevPos, done, prev, rest, result, limit)
      invariant SameFrom(start, buffer[..], limit)
      decreases |rest|
    {
      NextEntry(buffer[..], newLen, prevPos, pos, done, prev, rest, result, limit);
      var fragOffset := Load24(buffer[..], pos + 6);
      var fragLength := Load24(buffer[..], pos + 9);
      ghost var f, mid := rest[0], buffer[..];
      if fragOffset <= prevFragOffset + prevFragLength {
        if fragOffset + fragLength > prevFragOffset + prevFragLength {
          var n := fragOffset + fragLength - prevFragOffset - prevFragLength;
          JoinInPlace(buffer, newLen, prevPos, pos, prevFragOffset, prevFragLength, fragOffset, n,
                      done, prev, rest, result, limit);
          SameFromOn(start, mid, buffer[..], limit, limit, limit);
          newLen := newLen - (fragLength - n + HEADER_LEN);
          prevFragLength := prevFragLength + n;
          pos := pos + n;
          prev, rest := Join(prev, f), rest[1..];
        } else {
          DropInPlace(buffer, newLen, prevPos, pos, fragLength, done, prev, rest, result, limit);
          SameFromOn(start, mid, buffer[..], limit, limit, limit);
          newLen := newLen - (fragLength + HEADER_LEN);
          rest := rest[1..];
        }
      } else {
        KeepEntry(buffer[..], newLen, prevPos, done, prev, rest, result, limit);
        done := done + [prev];
        prevPos, prevFragOffset, prevFragLength := pos, fragOffset, fragLength;
        pos := pos + (fragLength + HEADER_LEN);
        prev, rest := f, rest[1..];
      }
    }
    NextEntry(buffer[..], newLen, prevPos, pos, done, prev, rest, result, limit);
    SweepEnds(buffer[..], newLen, prevPos, done, prev, result, limit);
  }
}
