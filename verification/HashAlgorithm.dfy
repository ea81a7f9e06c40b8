/** MD5 and SHA-1 around their compression functions: message padding (sections 3.1 and 3.2 of
    RFC 1321, section 5.1.1 of FIPS 180-4), and the running context that digests a message in
    pieces. */
module HashAlgorithm {
  import opened Bytes

  const BLOCK_SIZE: nat := 64
  const MIN_PAD_SIZE: nat := 9
  const U64: nat := 0x1_0000_0000_0000_0000

  datatype Kind = Md5 | Sha1 | OtherHash

  /** The chaining value, as words. */
  type Chain = seq<nat>

  /** What an algorithm adds to the common frame: start value, compression of one block, and the
      digest octets of a chaining value. */
  datatype HashAlgo = HashAlgo(kind: Kind, start: Chain, compress: (Chain, seq<byte>) -> Chain,
                               output: Chain -> seq<byte>) {
    function DigestSize(): nat { if kind == Md5 then 16 else 20 }
    predicate BigEndian() { kind != Md5 }
    ghost predicate Lawful() { forall c :: |output(c)| == DigestSize() }
  }

  // ----- The digest as a function of the message -----

  function LowOctet(v: nat): byte { v % 256 }

  /** Octets of v, lowest first. */
  function Digits(v: nat, n: nat): (r: seq<byte>)
    ensures |r| == n
  {
    if n == 0 then [] else [LowOctet(v)] + Digits(v / 256, n - 1)
  }

  function Reversed(s: seq<byte>): (r: seq<byte>)
    ensures |r| == |s|
  {
    if s == [] then [] else Reversed(s[1..]) + [s[0]]
  }

  /** The 64-bit length field in the byte order of the algorithm. */
  function LengthField(algo: HashAlgo, length: nat): (r: seq<byte>)
    ensures |r| == 8
  {
    var bits := Digits(8 * length % U64, 8);
    if algo.BigEndian() then Reversed(bits) else bits
  }

  /** How many octets, 0x80 included, bring the length to 56 modulo 64. */
  function PaddingSize(length: nat): nat {
    if length % BLOCK_SIZE < 56 then 56 - length % BLOCK_SIZE else BLOCK_SIZE + 56 - length % BLOCK_SIZE
  }

  lemma PaddingFills(length: nat)
    ensures 1 <= PaddingSize(length) <= BLOCK_SIZE
    ensures (length + PaddingSize(length)) % BLOCK_SIZE == 56
    ensures (length + PaddingSize(length) + 8) % BLOCK_SIZE == 0
  {
    var q, r := length / BLOCK_SIZE, length % BLOCK_SIZE;
    assert length == BLOCK_SIZE * q + r;
    if r < 56 {
      Remainder(q, 56);
      Remainder(q + 1, 0);
    } else {
      Remainder(q + 1, 56);
      Remainder(q + 2, 0);
    }
  }

  lemma Remainder(q: nat, r: nat)
    requires r < BLOCK_SIZE
    ensures (BLOCK_SIZE * q + r) % BLOCK_SIZE == r && (BLOCK_SIZE * q + r) / BLOCK_SIZE == q
  {
  }

  function Zeros(n: nat): seq<byte> { seq(n, _ => 0) }

  /** 0x80 and zeroes. */
  function Padding(length: nat): (r: seq<byte>)
    ensures |r| == PaddingSize(length)
  {
    PaddingFills(length);
    [0x80] + Zeros(PaddingSize(length) - 1)
  }

  function Padded(algo: HashAlgo, m: seq<byte>): (r: seq<byte>)
    ensures |r| == |m| + PaddingSize(|m|) + 8
    ensures |r| % BLOCK_SIZE == 0
  {
    PaddingFills(|m|);
    m + Padding(|m|) + LengthField(algo, |m|)
  }

  /** The chaining value after all whole blocks of s. */
  function Absorb(algo: HashAlgo, h: Chain, s: seq<byte>): Chain
    decreases |s|
  {
    if |s| < BLOCK_SIZE then h else Absorb(algo, algo.compress(h, s[..BLOCK_SIZE]), s[BLOCK_SIZE..])
  }

  /** The octets behind the last whole block. */
  function Tail(s: seq<byte>): (r: seq<byte>)
    ensures |r| < BLOCK_SIZE
  {
    if |s| < BLOCK_SIZE then s else Tail(s[BLOCK_SIZE..])
  }

  function Digest(algo: HashAlgo, m: seq<byte>): seq<byte> {
    algo.output(Absorb(algo, algo.start, Padded(algo, m)))
  }

  lemma {:induction false} TailSize(s: seq<byte>)
    ensures |Tail(s)| == |s| % BLOCK_SIZE
  {
    if |s| >= BLOCK_SIZE {
      TailSize(s[BLOCK_SIZE..]);
      OneBlockLess(|s|);
    }
  }

  lemma OneBlockLess(n: nat)
    requires n >= BLOCK_SIZE
    ensures (n - BLOCK_SIZE) % BLOCK_SIZE == n % BLOCK_SIZE
  {
  }

  /** What a piece that fits behind the tail does. */
  lemma {:induction false} TakeFacts(algo: HashAlgo, h: Chain, s: seq<byte>, piece: seq<byte>)
    requires |Tail(s)| + |piece| <= BLOCK_SIZE
    ensures var part := Tail(s) + piece;
      if |part| < BLOCK_SIZE then
        Absorb(algo, h, s + piece) == Absorb(algo, h, s) && Tail(s + piece) == part
      else
        Absorb(algo, h, s + piece) == algo.compress(Absorb(algo, h, s), part) && Tail(s + piece) == []
    decreases |s|
  {
    if |s| >= BLOCK_SIZE {
      assert (s + piece)[..BLOCK_SIZE] == s[..BLOCK_SIZE] && (s + piece)[BLOCK_SIZE..] == s[BLOCK_SIZE..] + piece;
      TakeFacts(algo, algo.compress(h, s[..BLOCK_SIZE]), s[BLOCK_SIZE..], piece);
    } else if |s + piece| == BLOCK_SIZE {
      assert (s + piece)[..BLOCK_SIZE] == s + piece && (s + piece)[BLOCK_SIZE..] == [];
    }
  }

  /** The length as the context counts it. */
  function Total(length: nat): nat { length % U64 }

  lemma NothingAbsorbed(algo: HashAlgo)
    ensures Tail([]) == [] && Total(0) == 0 && Absorb(algo, algo.start, []) == algo.start
  {
  }

  // ----- Byte orders of the length field -----

  /** htole32 and htobe32 on the two halves of the length, as the final functions store them. */
  function StoredLength(algo: HashAlgo, bits: nat): seq<byte> {
    var low, high := Digits(bits % 0x1_0000_0000, 4), Digits(bits / 0x1_0000_0000, 4);
    if algo.BigEndian() then Reversed(high) + Reversed(low) else low + high
  }

  lemma {:induction false} DigitsSplit(v: nat, n: nat, k: nat)
    requires k <= n
    ensures Digits(v, n)[..k] == Digits(v, k)
    ensures Digits(v, n)[k..] == Digits(Shift(v, k), n - k)
  {
    if k > 0 {
      DigitsSplit(v / 256, n - 1, k - 1);
      assert Digits(v, n)[..k] == [LowOctet(v)] + Digits(v / 256, n - 1)[..k - 1];
      assert Digits(v, n)[k..] == Digits(v / 256, n - 1)[k - 1..];
    }
  }

  /** v >> 8 * k */
  function Shift(v: nat, k: nat): nat {
    if k == 0 then v else Shift(v / 256, k - 1)
  }

  /** The lowest k digits only depend on v modulo 256^k. */
  lemma {:induction false} DigitsModulo(v: nat, w: nat, k: nat)
    requires exists c: nat :: v == w + c * Power(k)
    ensures Digits(v, k) == Digits(w, k)
  {
    if k > 0 {
      var c: nat :| v == w + c * Power(k);
      var p := Power(k - 1);
      assert c * Power(k) == 256 * (c * p);
      var d := c * p;
      assert v == w + 256 * d;
      assert v % 256 == w % 256 && v / 256 == w / 256 + d;
      DigitsModulo(v / 256, w / 256, k - 1);
    }
  }

  function Power(k: nat): (r: nat)
    ensures r > 0
  {
    if k == 0 then 1 else 256 * Power(k - 1)
  }

  lemma {:induction false} ReversedConcat(s: seq<byte>, t: seq<byte>)
    ensures Reversed(s + t) == Reversed(t) + Reversed(s)
  {
    if s == [] {
      assert s + t == t && Reversed(t) + [] == Reversed(t);
    } else {
      ReversedConcat(s[1..], t);
      assert (s + t)[0] == s[0] && (s + t)[1..] == s[1..] + t;
    }
  }

  /** Storing the length word by word is the same as octet by octet. */
  lemma StoredLengthIsField(algo: HashAlgo, length: nat)
    ensures StoredLength(algo, 8 * length % U64) == LengthField(algo, length)
  {
    var bits := 8 * length % U64;
    var low, high := bits % 0x1_0000_0000, bits / 0x1_0000_0000;
    DigitsSplit(bits, 8, 4);
    assert Power(4) == 0x1_0000_0000 by { assert Power(2) == 0x1_0000; }
    assert bits == low + high * Power(4);
    DigitsModulo(bits, low, 4);
    ShiftFour(bits);
    assert Digits(bits, 8) == Digits(bits, 8)[..4] + Digits(bits, 8)[4..];
    ReversedConcat(Digits(low, 4), Digits(high, 4));
  }

  lemma ShiftFour(v: nat)
    ensures Shift(v, 4) == v / 0x1_0000_0000
  {
    var a := v / 256;
    var b := a / 256;
    var c := b / 256;
    assert Shift(c, 1) == Shift(c / 256, 0) == c / 256;
    assert Shift(v, 4) == Shift(a, 3) == Shift(b, 2) == Shift(c, 1);
    assert b == v / 0x1_0000;
    assert c / 256 == b / 0x1_0000;
  }

  // ----- Collisions -----

  /** Two blocks on two chaining values that are compressed to the same value. */
  ghost predicate Collision(algo: HashAlgo, c: Chain, b: seq<byte>, d: Chain, e: seq<byte>) {
    |b| == |e| == 64 && (c != d || b != e) && algo.compress(c, b) == algo.compress(d, e)
  }

  ghost predicate Collides(algo: HashAlgo) {
    || (exists c, d :: c != d && algo.output(c) == algo.output(d))
    || (exists c, b, d, e :: Collision(algo, c, b, d, e))
  }

  lemma AbsorbLast(algo: HashAlgo, h: Chain, s: seq<byte>)
    requires |s| >= BLOCK_SIZE && |s| % BLOCK_SIZE == 0
    ensures var n := |s| - BLOCK_SIZE;
      n % BLOCK_SIZE == 0 && Absorb(algo, h, s) == algo.compress(Absorb(algo, h, s[..n]), s[n..])
  {
    var n := |s| - BLOCK_SIZE;
    OneBlockLess(|s|);
    TailSize(s[..n]);
    assert Tail(s[..n]) == [] && [] + s[n..] == s[n..] && s[..n] + s[n..] == s;
    TakeFacts(algo, h, s[..n], s[n..]);
    hide Absorb, Tail;
  }

  /** Equally many whole blocks that are not the same but absorbed to the same value. */
  lemma {:induction false} BlocksCollide(algo: HashAlgo, h: Chain, s: seq<byte>, t: seq<byte>)
    requires |s| == |t| && |s| % BLOCK_SIZE == 0 && s != t && Absorb(algo, h, s) == Absorb(algo, h, t)
    ensures Collides(algo)
  {
    assert |s| >= BLOCK_SIZE;
    hide Absorb;
    AbsorbLast(algo, h, s);
    AbsorbLast(algo, h, t);
    var n := |s| - BLOCK_SIZE;
    var c, d := Absorb(algo, h, s[..n]), Absorb(algo, h, t[..n]);
    if c != d || s[n..] != t[n..] {
      assert Collision(algo, c, s[n..], d, t[n..]);
    } else {
      assert s == s[..n] + s[n..] && t == t[..n] + t[n..];
      BlocksCollide(algo, h, s[..n], t[..n]);
    }
  }

  lemma {:induction false} DigitsDiffer(v: nat, w: nat, n: nat)
    requires v < Power(n) && w < Power(n) && Digits(v, n) == Digits(w, n)
    ensures v == w
  {
    if n > 0 {
      assert Digits(v, n)[0] == LowOctet(v) && Digits(w, n)[0] == LowOctet(w);
      assert Digits(v, n)[1..] == Digits(v / 256, n - 1) && Digits(w, n)[1..] == Digits(w / 256, n - 1);
      DigitsDiffer(v / 256, w / 256, n - 1);
    }
  }

  lemma {:induction false} ReversedTwice(s: seq<byte>)
    ensures Reversed(Reversed(s)) == s
  {
    if s != [] {
      ReversedConcat(Reversed(s[1..]), [s[0]]);
      ReversedTwice(s[1..]);
      assert Reversed([s[0]]) == [s[0]];
    }
  }

  /** The length field tells lengths below 2^61 apart. */
  lemma LengthFieldDiffers(algo: HashAlgo, a: nat, b: nat)
    requires a < 0x2000_0000_0000_0000 && b < 0x2000_0000_0000_0000 && a != b
    ensures LengthField(algo, a) != LengthField(algo, b)
  {
    assert Power(8) == U64 by { assert Power(4) == 0x1_0000_0000 by { assert Power(2) == 0x1_0000; } }
    assert 8 * a % U64 == 8 * a && 8 * b % U64 == 8 * b;
    if Digits(8 * a, 8) == Digits(8 * b, 8) { DigitsDiffer(8 * a, 8 * b, 8); }
    ReversedTwice(Digits(8 * a, 8));
    ReversedTwice(Digits(8 * b, 8));
  }

  /** Two messages with the same digest lead to two blocks that are compressed to the same value, or to two
      values with the same output: padding and chaining bring in no collisions of their own. */
  lemma DigestCollides(algo: HashAlgo, m: seq<byte>, n: seq<byte>)
    requires m != n && Digest(algo, m) == Digest(algo, n)
    requires |m| < 0x2000_0000_0000_0000 && |n| < 0x2000_0000_0000_0000
    ensures Collides(algo)
  {
    var p, q := Padded(algo, m), Padded(algo, n);
    hide Absorb;
    if Absorb(algo, algo.start, p) == Absorb(algo, algo.start, q) {
      if |m| == |n| {
        assert p[..|m|] == m && q[..|n|] == n;
        BlocksCollide(algo, algo.start, p, q);
      } else {
        LengthFieldDiffers(algo, |m|, |n|);
        LastBlocksDiffer(algo, m, n);
        AbsorbLast(algo, algo.start, p);
        AbsorbLast(algo, algo.start, q);
        var a, b := |p| - BLOCK_SIZE, |q| - BLOCK_SIZE;
        assert Collision(algo, Absorb(algo, algo.start, p[..a]), p[a..], Absorb(algo, algo.start, q[..b]), q[b..]);
      }
    }
  }

  lemma LastBlocksDiffer(algo: HashAlgo, m: seq<byte>, n: seq<byte>)
    requires LengthField(algo, |m|) != LengthField(algo, |n|)
    ensures var p, q := Padded(algo, m), Padded(algo, n);
      && |p| >= BLOCK_SIZE && |q| >= BLOCK_SIZE
      && p[|p| - BLOCK_SIZE..] != q[|q| - BLOCK_SIZE..]
  {
    var p, q := Padded(algo, m), Padded(algo, n);
    assert p[|p| - BLOCK_SIZE..][BLOCK_SIZE - 8..] == LengthField(algo, |m|);
    assert q[|q| - BLOCK_SIZE..][BLOCK_SIZE - 8..] == LengthField(algo, |n|);
  }

  // ----- The running context -----

  /** The padding leaves room for exactly the length field. */
  lemma FinalFacts(algo: HashAlgo, m: seq<byte>, size: nat)
    requires size == |Tail(m)|
    ensures var paddingSize := if size < 56 then 56 - size else 64 + 56 - size;
      && paddingSize > 0 && [0x80] + Zeros(paddingSize - 1) == Padding(|m|)
    ensures |Tail(m + Padding(|m|))| == 56
    ensures Padded(algo, m) == m + Padding(|m|) + LengthField(algo, |m|)
    ensures StoredLength(algo, Total(|m|) * 8 % U64) == LengthField(algo, |m|)
  {
    PaddingFills(|m|);
    TailSize(m);
    TailSize(m + Padding(|m|));
    BitCount(|m|);
    StoredLengthIsField(algo, |m|);
    hide StoredLength, LengthField;
  }

  class HashContext {
    const algo: HashAlgo
    const buffer: array<byte>
    var h: Chain
    var size: nat
    var totalSize: nat
    /** Everything digested since the last initialisation. */
    ghost var absorbed: seq<byte>

    ghost predicate Valid()
      reads this, buffer
    {
      && buffer.Length == BLOCK_SIZE
      && size < BLOCK_SIZE && buffer[..size] == Tail(absorbed)
      && totalSize == Total(|absorbed|)
      && h == Absorb(algo, algo.start, absorbed)
    }

    constructor (algo: HashAlgo)
      ensures Valid() && absorbed == [] && this.algo == algo && fresh(buffer)
    {
      NothingAbsorbed(algo);
      hide Tail, Total, Absorb;
      this.algo := algo;
      h, size, totalSize, absorbed := algo.start, 0, 0, [];
      buffer := new byte[BLOCK_SIZE];
    }

    method Init()
      requires buffer.Length == BLOCK_SIZE
      modifies this
      ensures Valid() && absorbed == []
    {
      NothingAbsorbed(algo);
      hide Tail, Total, Absorb;
      h, size, totalSize := algo.start, 0, 0;
      absorbed := [];
    }

    /** Digesting in pieces is digesting the concatenation. */
    method Update(data: seq<byte>)
      requires Valid()
      modifies this, buffer
      ensures Valid() && absorbed == old(absorbed) + data
    {
      hide Absorb, Tail, Total;
      var pos := 0;
      while pos < |data|
        invariant 0 <= pos <= |data|
        invariant Valid() && absorbed == old(absorbed) + data[..pos]
      {
        var n := if |data| - pos < BLOCK_SIZE - size then |data| - pos else BLOCK_SIZE - size;
        assert data[..pos] + data[pos..pos + n] == data[..pos + n];
        Take(data[pos..pos + n]);
        pos := pos + n;
      }
      assert data[..pos] == data;
    }

    /** One round of the loop: the piece fits into the buffer. */
    method Take(piece: seq<byte>)
      requires Valid() && 0 < |piece| <= BLOCK_SIZE - size
      modifies this, buffer
      ensures Valid() && absorbed == old(absorbed) + piece
    {
      TakeFacts(algo, algo.start, absorbed, piece);
      TotalAdds(|absorbed|, |piece|);
      hide Absorb, Tail, Total;
      ghost var part := Tail(absorbed) + piece;
      Fill(piece);
      assert buffer[..size + |piece|] == part;
      size := size + |piece|;
      totalSize := Total(totalSize + |piece|);
      absorbed := absorbed + piece;
      if size == BLOCK_SIZE {
        assert buffer[..] == buffer[..size];
        h := algo.compress(h, buffer[..]);
        size := 0;
      }
    }

    /** cryptoMemcpy behind what the buffer holds. */
    method Fill(piece: seq<byte>)
      requires size + |piece| <= buffer.Length
      modifies buffer
      ensures buffer[..size + |piece|] == old(buffer[..size]) + piece
    {
      forall k | 0 <= k < |piece| {
        buffer[size + k] := piece[k];
      }
    }

    /** The final call pads the message and yields its digest; the context is used up. */
    method Final() returns (digest: seq<byte>)
      requires Valid()
      modifies this, buffer
      ensures digest == Digest(algo, old(absorbed))
      ensures buffer.Length == BLOCK_SIZE
    {
      ghost var m := absorbed;
      var bits := totalSize * 8 % U64;
      var paddingSize := if size < 56 then 56 - size else 64 + 56 - size;
      FinalFacts(algo, m, size);
      hide Absorb, Zeros, Tail, LengthField, StoredLength, Total, Padding, PaddingSize;
      Update([0x80] + Zeros(paddingSize - 1));
      ghost var last := Tail(absorbed) + LengthField(algo, |m|);
      TakeFacts(algo, algo.start, absorbed, LengthField(algo, |m|));
      Fill(StoredLength(algo, bits));
      assert buffer[..] == buffer[..size + 8] == last;
      h := algo.compress(h, buffer[..]);
      digest := algo.output(h);
    }

    /** The digest octets of the chaining value as it is; the byte order of the words is
        converted and converted back. */
    method FinalRaw() returns (digest: seq<byte>)
      requires Valid()
      ensures digest == algo.output(Absorb(algo, algo.start, absorbed))
    {
      digest := algo.output(h);
    }
  }

  lemma BitCount(length: nat)
    ensures length % U64 * 8 % U64 == 8 * length % U64
  {
    var q, r := length / U64, length % U64;
    assert 8 * length == 8 * r + 8 * q * U64;
    Wraps(8 * r, 8 * q);
  }

  lemma TotalAdds(a: nat, b: nat)
    ensures Total(Total(a) + b) == Total(a + b)
  {
    Wraps(a % U64 + b, a / U64);
  }

  lemma Wraps(a: nat, c: nat)
    ensures (a + c * U64) % U64 == a % U64
  {
  }
}
