/** Octets, the big-endian loads and stores of cpu_endian.h, and in-place block moves. */
module Bytes {

  type byte = b: int | 0 <= b < 256

  /** STORE16BE: like the C macro, keeps the low 16 bits only. */
  function Store16(v: nat): (r: seq<byte>)
    ensures |r| == 2
  {
    [v / 0x100 % 0x100, v % 0x100]
  }

  /** STORE24BE: keeps the low 24 bits only. */
  function Store24(v: nat): (r: seq<byte>)
    ensures |r| == 3
  {
    [v / 0x1_0000 % 0x100, v / 0x100 % 0x100, v % 0x100]
  }

  function Load16(s: seq<byte>, p: nat): nat
    requires p + 2 <= |s|
  {
    (s[p] as nat) * 0x100 + s[p + 1]
  }

  function Load24(s: seq<byte>, p: nat): nat
    requires p + 3 <= |s|
  {
    (s[p] as nat) * 0x1_0000 + (s[p + 1] as nat) * 0x100 + s[p + 2]
  }

  function Load48(s: seq<byte>, p: nat): nat
    requires p + 6 <= |s|
  {
    Load24(s, p) * 0x100_0000 + Load24(s, p + 3)
  }

  /** A slice as a slice of what lies behind lo. */
  lemma SliceBehind(s: seq<byte>, lo: nat, a: nat, b: nat)
    requires lo <= a <= b <= |s|
    ensures s[a..b] == s[lo..][a - lo..b - lo]
  {
    var x, y := s[a..b], s[lo..][a - lo..b - lo];
    forall k | 0 <= k < b - a ensures x[k] == y[k] {
      assert s[lo..][a - lo + k] == s[a + k];
    }
  }

  lemma SliceJoin(s: seq<byte>, a: nat, b: nat, c: nat)
    requires a <= b <= c <= |s|
    ensures s[a..b] + s[b..c] == s[a..c]
  {
  }

  /** Two contents of a buffer agree from position p on. */
  predicate SameFrom(s: seq<byte>, t: seq<byte>, p: nat) {
    p <= |s| == |t| && s[p..] == t[p..]
  }

  lemma SameFromOn(s: seq<byte>, t: seq<byte>, u: seq<byte>, p: nat, q: nat, r: nat)
    requires SameFrom(s, t, p) && SameFrom(t, u, q) && p <= r && q <= r <= |s|
    ensures SameFrom(s, u, r)
  {
    SliceBehind(s, p, r, |s|);
    SliceBehind(t, p, r, |s|);
    SliceBehind(t, q, r, |s|);
    SliceBehind(u, q, r, |s|);
    assert s[r..] == s[r..|s|] && u[r..] == u[r..|s|];
  }

  /** A buffer after a block of it has been copied elsewhere in it. */
  function Moved(s: seq<byte>, dst: nat, src: nat, n: nat): (r: seq<byte>)
    requires dst + n <= |s| && src + n <= |s|
    ensures |r| == |s|
  {
    s[..dst] + s[src..src + n] + s[dst + n..]
  }

  /** What lies on one side of the destination stays. */
  lemma MovedKeeps(s: seq<byte>, dst: nat, src: nat, n: nat, a: nat, b: nat)
    requires dst + n <= |s| && src + n <= |s| && a <= b <= |s| && (b <= dst || dst + n <= a)
    ensures Moved(s, dst, src, n)[a..b] == s[a..b]
  {
    var r := Moved(s, dst, src, n);
    forall k | a <= k < b ensures r[k] == s[k] {}
  }

  lemma MovedThere(s: seq<byte>, dst: nat, src: nat, n: nat)
    requires dst + n <= |s| && src + n <= |s|
    ensures Moved(s, dst, src, n)[dst..dst + n] == s[src..src + n]
  {
  }

  lemma OverwrittenKeeps(s: seq<byte>, dst: nat, w: seq<byte>, a: nat, b: nat)
    requires dst + |w| <= |s| && a <= b <= |s| && (b <= dst || dst + |w| <= a)
    ensures Overwritten(s, dst, w)[a..b] == s[a..b]
  {
    var r := Overwritten(s, dst, w);
    forall k | a <= k < b ensures r[k] == s[k] {}
  }

  lemma OverwrittenThere(s: seq<byte>, dst: nat, w: seq<byte>)
    requires dst + |w| <= |s|
    ensures Overwritten(s, dst, w)[dst..dst + |w|] == w
    ensures forall k :: 0 <= k < |w| ==> Overwritten(s, dst, w)[dst + k] == w[k]
  {
  }

  /** A buffer after some octets have been stored in it. */
  function Overwritten(s: seq<byte>, dst: nat, w: seq<byte>): (r: seq<byte>)
    requires dst + |w| <= |s|
    ensures |r| == |s|
  {
    s[..dst] + w + s[dst + |w|..]
  }

  /** memmove inside one buffer: the source is read before anything is written. */
  method Memmove(a: array<byte>, dst: nat, src: nat, n: nat)
    requires dst + n <= a.Length && src + n <= a.Length
    modifies a
    ensures a[..] == Moved(old(a[..]), dst, src, n)
  {
    forall k | 0 <= k < n {
      a[dst + k] := a[src + k];
    }
  }

  /** memcpy inside one buffer, defined only when source and destination do not overlap. */
  method Memcpy(a: array<byte>, dst: nat, src: nat, n: nat)
    requires dst + n <= src || src + n <= dst
    requires dst + n <= a.Length && src + n <= a.Length
    modifies a
    ensures a[..] == Moved(old(a[..]), dst, src, n)
  {
    Memmove(a, dst, src, n);
  }

  /** Stores a run of octets at a position. */
  method Write(a: array<byte>, dst: nat, s: seq<byte>)
    requires dst + |s| <= a.Length
    modifies a
    ensures a[..] == Overwritten(old(a[..]), dst, s)
  {
    forall k | 0 <= k < |s| {
      a[dst + k] := s[k];
    }
  }
}
