/** The DTLS handshake fragment (section 4.2.2 of RFC 6347) and its wire form. */
module Fragments {
  import opened Bytes

  /** sizeof(DtlsHandshake) */
  const HEADER_LEN: nat := 12

  /** A fragment: the 12-octet header is msgType, length, msgSeq, offset and |data|. */
  datatype Fragment = Fragment(msgType: byte, length: nat, msgSeq: nat, offset: nat, data: seq<byte>) {
    function End(): nat { offset + |data| }

    /** Every field fits the octets the header gives it. */
    predicate WireSized() {
      length < 0x100_0000 && msgSeq < 0x1_0000 && offset < 0x100_0000 && |data| < 0x100_0000
    }

    predicate SameMessage(other: Fragment) {
      msgType == other.msgType && length == other.length
    }
  }

  function Header(f: Fragment): (h: seq<byte>)
    ensures |h| == HEADER_LEN
  {
    [f.msgType] + Store24(f.length) + Store16(f.msgSeq) + Store24(f.offset) + Store24(|f.data|)
  }

  function Encode(f: Fragment): (s: seq<byte>)
    ensures |s| == HEADER_LEN + |f.data|
  {
    Header(f) + f.data
  }

  function EncodeQueue(q: seq<Fragment>): seq<byte> {
    if q == [] then [] else Encode(q[0]) + EncodeQueue(q[1..])
  }

  /** Reads the header at position p and as many octets as it announces. */
  function Decode(s: seq<byte>, p: nat): Fragment
    requires p + HEADER_LEN <= |s|
    requires p + HEADER_LEN + Load24(s, p + 9) <= |s|
  {
    Fragment(s[p], Load24(s, p + 1), Load16(s, p + 4), Load24(s, p + 6),
             s[p + HEADER_LEN..p + HEADER_LEN + Load24(s, p + 9)])
  }

  /** Decoding inverts encoding wherever the entry sits in a buffer. */
  lemma DecodeEncode(s: seq<byte>, p: nat, f: Fragment)
    requires f.WireSized()
    requires p + |Encode(f)| <= |s|
    requires s[p..p + |Encode(f)|] == Encode(f)
    ensures Load24(s, p + 9) == |f.data|
    ensures Decode(s, p) == f
  {
    var e := Encode(f);
    assert e[HEADER_LEN..] == f.data;
    forall k | 0 <= k < HEADER_LEN ensures s[p + k] == Header(f)[k] {
      assert s[p..p + |e|][k] == s[p + k] && e[k] == Header(f)[k];
    }
    assert s[p..p + |e|][HEADER_LEN..] == s[p + HEADER_LEN..p + |e|];
    HeaderLoads(s, p, f);
    hide Header, Load24, Load16, Encode;
  }

  lemma HeaderLoads(s: seq<byte>, p: nat, f: Fragment)
    requires f.WireSized() && p + HEADER_LEN <= |s|
    requires forall k :: 0 <= k < HEADER_LEN ==> s[p + k] == Header(f)[k]
    ensures s[p] == f.msgType && Load24(s, p + 1) == f.length && Load16(s, p + 4) == f.msgSeq
    ensures Load24(s, p + 6) == f.offset && Load24(s, p + 9) == |f.data|
  {
    var h := Header(f);
    assert h[0] == f.msgType && h[1..4] == Store24(f.length) && h[4..6] == Store16(f.msgSeq);
    assert h[6..9] == Store24(f.offset) && h[9..12] == Store24(|f.data|);
    assert h[1..4][0] == h[1] && h[1..4][1] == h[2] && h[1..4][2] == h[3];
    assert h[4..6][0] == h[4] && h[4..6][1] == h[5];
    assert h[6..9][0] == h[6] && h[6..9][1] == h[7] && h[6..9][2] == h[8];
    assert h[9..12][0] == h[9] && h[9..12][1] == h[10] && h[9..12][2] == h[11];
    hide Header;
    Loads24(f.length);
    Loads24(f.offset);
    Loads24(|f.data|);
    assert s[p + 0] == h[0];
  }

  lemma Loads24(v: nat)
    requires v < 0x100_0000
    ensures (Store24(v)[0] as nat) * 0x1_0000 + (Store24(v)[1] as nat) * 0x100 + Store24(v)[2] == v
  {
  }

  /** Encoding inverts decoding: the octets are those of the fragment read from them. */
  lemma EncodeDecode(s: seq<byte>, p: nat)
    requires p + HEADER_LEN <= |s| && p + HEADER_LEN + Load24(s, p + 9) <= |s|
    ensures Encode(Decode(s, p)) == s[p..p + HEADER_LEN + Load24(s, p + 9)]
    ensures Decode(s, p).WireSized() && |Decode(s, p).data| == Load24(s, p + 9)
  {
    var f := Decode(s, p);
    LoadsSized(s, p);
    HeaderReadBack(s, p, f);
    hide Header, Load24, Load16;
    assert s[p..p + HEADER_LEN + |f.data|] == s[p..p + HEADER_LEN] + f.data;
  }

  lemma LoadsSized(s: seq<byte>, p: nat)
    requires p + HEADER_LEN <= |s|
    ensures Load24(s, p + 1) < 0x100_0000 && Load16(s, p + 4) < 0x1_0000
    ensures Load24(s, p + 6) < 0x100_0000 && Load24(s, p + 9) < 0x100_0000
  {
  }

  lemma HeaderReadBack(s: seq<byte>, p: nat, f: Fragment)
    requires p + HEADER_LEN <= |s| && f.msgType == s[p]
    requires f.length == Load24(s, p + 1) && f.msgSeq == Load16(s, p + 4)
    requires f.offset == Load24(s, p + 6) && |f.data| == Load24(s, p + 9)
    ensures Header(f) == s[p..p + HEADER_LEN]
  {
    Store24Load24(s, p + 1);
    Store24Load24(s, p + 6);
    Store24Load24(s, p + 9);
    Store16Load16(s, p + 4);
    hide Load24, Load16, Store24, Store16;
    assert Header(f) == [s[p]] + [s[p + 1], s[p + 2], s[p + 3]] + [s[p + 4], s[p + 5]]
      + [s[p + 6], s[p + 7], s[p + 8]] + [s[p + 9], s[p + 10], s[p + 11]];
  }

  lemma Store16Load16(s: seq<byte>, p: nat)
    requires p + 2 <= |s|
    ensures Store16(Load16(s, p)) == [s[p], s[p + 1]]
  {
  }

  lemma Store24Load24(s: seq<byte>, p: nat)
    requires p + 3 <= |s|
    ensures Store24(Load24(s, p)) == [s[p], s[p + 1], s[p + 2]]
  {
    Octets24(s[p], s[p + 1], s[p + 2]);
  }

  lemma Octets24(a: byte, b: byte, c: byte)
    ensures Store24(a as nat * 0x1_0000 + b as nat * 0x100 + c) == [a, b, c]
  {
    var x := a as nat * 0x1_0000 + b as nat * 0x100 + c;
    assert x / 0x1_0000 == a;
    assert x / 0x100 == a as nat * 0x100 + b;
  }

  lemma {:induction false} EncodeQueueConcat(a: seq<Fragment>, b: seq<Fragment>)
    ensures EncodeQueue(a + b) == EncodeQueue(a) + EncodeQueue(b)
  {
    if a == [] {
      assert a + b == b;
    } else {
      EncodeQueueConcat(a[1..], b);
      assert (a + b)[1..] == a[1..] + b;
      assert EncodeQueue(a + b) == Encode(a[0]) + EncodeQueue(a[1..] + b);
      assert EncodeQueue(a) == Encode(a[0]) + EncodeQueue(a[1..]);
      hide EncodeQueue, Encode;
      Regroup(Encode(a[0]), EncodeQueue(a[1..]), EncodeQueue(b));
    }
  }

  lemma Regroup(a: seq<byte>, b: seq<byte>, c: seq<byte>)
    ensures a + (b + c) == a + b + c
  {
  }

  lemma EncodeQueueSingleton(f: Fragment)
    ensures EncodeQueue([f]) == Encode(f)
  {
  }

  /** A queue seen around its entry number i. */
  lemma {:induction false} EncodeQueueSplit(q: seq<Fragment>, i: nat)
    requires i < |q|
    ensures EncodeQueue(q) == EncodeQueue(q[..i]) + Encode(q[i]) + EncodeQueue(q[i + 1..])
    ensures EncodeQueue(q[..i + 1]) == EncodeQueue(q[..i]) + Encode(q[i])
  {
    var front, back := q[..i + 1], q[i + 1..];
    assert q == front + back;
    EncodeQueueConcat(front, back);
    assert front == q[..i] + [q[i]];
    EncodeQueueConcat(q[..i], [q[i]]);
    EncodeQueueSingleton(q[i]);
  }

  predicate AllWireSized(q: seq<Fragment>) {
    forall k :: 0 <= k < |q| ==> q[k].WireSized()
  }

  /** The octets of a queue determine its entries: there is one way to parse it. */
  lemma {:induction false} EncodeQueueInjective(a: seq<Fragment>, b: seq<Fragment>)
    requires AllWireSized(a) && AllWireSized(b)
    requires EncodeQueue(a) == EncodeQueue(b)
    ensures a == b
  {
    if a != [] && b != [] {
      var s := EncodeQueue(a);
      assert s[0..0 + |Encode(a[0])|] == Encode(a[0]);
      assert s[0..0 + |Encode(b[0])|] == Encode(b[0]);
      DecodeEncode(s, 0, a[0]);
      DecodeEncode(s, 0, b[0]);
      assert EncodeQueue(a[1..]) == s[|Encode(a[0])|..];
      assert EncodeQueue(b[1..]) == s[|Encode(b[0])|..];
      EncodeQueueInjective(a[1..], b[1..]);
      assert a == [a[0]] + a[1..];
      assert b == [b[0]] + b[1..];
    }
  }
}
