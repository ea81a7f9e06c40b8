/** The SSL 3.0 record MAC (section 5.2.3.1 of RFC 6101): the direct computation, and the
    verification that hashes every candidate block whatever the secret data length is. */
module SslMac {
  import opened Bytes
  import opened ConstantTime
  import opened HashAlgorithm

  /** The parts of the encryption engine and of the record header that enter the MAC. */
  datatype MacInput = MacInput(macKey: seq<byte>, seqNum: seq<byte>, contentType: byte, length: seq<byte>) {
    predicate Sized() { |seqNum| == 8 && |length| == 2 && |macKey| < 0x800_0000 }
  }

  datatype Computed = Computed(mac: seq<byte>) | InvalidParameter

  function PadLen(kind: Kind): nat { if kind == Md5 then 48 else 40 }

  function Pad1(kind: Kind): seq<byte> { seq(PadLen(kind), _ => 0x36) }

  function Pad2(kind: Kind): seq<byte> { seq(PadLen(kind), _ => 0x5C) }

  /** What is hashed in front of the record data. */
  function Prefix(kind: Kind, x: MacInput): seq<byte> {
    x.macKey + Pad1(kind) + x.seqNum + [x.contentType] + x.length
  }

  function Outer(algo: HashAlgo, x: MacInput, inner: seq<byte>): seq<byte> {
    Digest(algo, x.macKey + Pad2(algo.kind) + inner)
  }

  /** The MAC of section 5.2.3.1. */
  function Mac(algo: HashAlgo, x: MacInput, data: seq<byte>): seq<byte> {
    Outer(algo, x, Digest(algo, Prefix(algo.kind, x) + data))
  }

  /** What the two digests are taken of, octet by octet: secret, 48 octets for MD5 or 40 for SHA-1, and
      then the numbered record inside, and the inner digest outside. */
  predicate MacMessages(algo: HashAlgo, x: MacInput, data: seq<byte>, inner: seq<byte>, outer: seq<byte>) {
    var k, n := |x.macKey|, |x.macKey| + if algo.kind == Md5 then 48 else 40;
    && |inner| == n + 11 + |data| && |outer| == n + |Digest(algo, inner)|
    && inner[..k] == x.macKey && outer[..k] == x.macKey
    && (forall i :: k <= i < n ==> inner[i] == 0x36 && outer[i] == 0x5C)
    && inner[n..n + 8] == x.seqNum && inner[n + 8] == x.contentType && inner[n + 9..n + 11] == x.length
    && inner[n + 11..] == data
    && outer[n..] == Digest(algo, inner)
  }

  lemma MacOctets(algo: HashAlgo, x: MacInput, data: seq<byte>)
    requires x.Sized()
    ensures exists inner, outer :: MacMessages(algo, x, data, inner, outer) && Mac(algo, x, data) == Digest(algo, outer)
  {
    hide Digest;
    var inner := Prefix(algo.kind, x) + data;
    var outer := x.macKey + Pad2(algo.kind) + Digest(algo, inner);
    assert MacMessages(algo, x, data, inner, outer);
  }

  /** The parts can be told from what is hashed. */
  lemma MacParts(algo: HashAlgo, x: MacInput, d: seq<byte>, inner: seq<byte>, outer: seq<byte>, y: MacInput,
                 e: seq<byte>, inner': seq<byte>, outer': seq<byte>)
    requires MacMessages(algo, x, d, inner, outer) && MacMessages(algo, y, e, inner', outer')
    requires |x.macKey| == |y.macKey|
    ensures inner == inner' ==> x == y && d == e
    ensures outer == outer' ==> Digest(algo, inner) == Digest(algo, inner')
  {
    hide Digest;
  }

  /** The MAC covers key, record number, type, length and data: two different inputs with equally long
      keys that have the same MAC yield two different messages with the same digest, and with them a
      collision of the compression function or of its output. */
  lemma SameMacCollides(algo: HashAlgo, x: MacInput, d: seq<byte>, y: MacInput, e: seq<byte>)
    requires x.Sized() && y.Sized() && |x.macKey| == |y.macKey| && (x != y || d != e)
    requires Mac(algo, x, d) == Mac(algo, y, e)
    ensures exists m, n :: m != n && Digest(algo, m) == Digest(algo, n)
    ensures algo.Lawful() && |d| < 0x1000_0000 && |e| < 0x1000_0000 ==> Collides(algo)
  {
    MacOctets(algo, x, d);
    MacOctets(algo, y, e);
    var m, o :| MacMessages(algo, x, d, m, o) && Mac(algo, x, d) == Digest(algo, o);
    var n, p :| MacMessages(algo, y, e, n, p) && Mac(algo, y, e) == Digest(algo, p);
    MacParts(algo, x, d, m, o, y, e, n, p);
    MacSizes(algo, x, d, m, o);
    MacSizes(algo, y, e, n, p);
    hide Digest, Mac, MacMessages, Collides;
    assert m != n;
    if algo.Lawful() && |d| < 0x1000_0000 && |e| < 0x1000_0000 {
      if o == p { DigestCollides(algo, m, n); } else { DigestCollides(algo, o, p); }
    }
  }

  lemma MacSizes(algo: HashAlgo, x: MacInput, d: seq<byte>, inner: seq<byte>, outer: seq<byte>)
    requires x.Sized() && MacMessages(algo, x, d, inner, outer)
    ensures algo.Lawful() ==> |outer| < 0x1000_0000
    ensures |d| < 0x1000_0000 ==> |inner| < 0x2000_0000
  {
  }

  method HashPrefix(ctx: HashContext, x: MacInput)
    requires ctx.Valid()
    modifies ctx, ctx.buffer
    ensures ctx.Valid() && ctx.absorbed == Prefix(ctx.algo.kind, x)
  {
    assert ctx.buffer.Length == BLOCK_SIZE;
    hide HashContext.Valid, Pad1;
    ctx.Init();
    ctx.Update(x.macKey);
    assert ctx.absorbed == x.macKey;
    ctx.Update(Pad1(ctx.algo.kind));
    ctx.Update(x.seqNum);
    ctx.Update([x.contentType]);
    ctx.Update(x.length);
  }

  method HashOuter(ctx: HashContext, x: MacInput, inner: seq<byte>) returns (digest: seq<byte>)
    requires ctx.buffer.Length == BLOCK_SIZE
    modifies ctx, ctx.buffer
    ensures digest == Outer(ctx.algo, x, inner)
  {
    hide HashContext.Valid, Pad2, Digest;
    ctx.Init();
    ctx.Update(x.macKey);
    assert ctx.absorbed == x.macKey;
    ctx.Update(Pad2(ctx.algo.kind));
    ctx.Update(inner);
    digest := ctx.Final();
  }

  /** sslComputeMac */
  method ComputeMac(ctx: HashContext, x: MacInput, data: seq<byte>) returns (r: Computed)
    requires ctx.Valid()
    modifies ctx, ctx.buffer
    ensures r == if ctx.algo.kind == OtherHash then InvalidParameter else Computed(Mac(ctx.algo, x, data))
  {
    if ctx.algo.kind == OtherHash {
      return InvalidParameter;
    }
    HashPrefix(ctx, x);
    ctx.Update(data);
    var inner := ctx.Final();
    var mac := HashOuter(ctx, x, inner);
    return Computed(mac);
  }

  // ----- The padded stream octet by octet -----

  /** swapInt64 */
  function SwapInt64(v: nat): nat { Number(Reversed(Digits(v, 8))) }

  function Number(s: seq<byte>): nat {
    if s == [] then 0 else (s[0] as nat) + 256 * Number(s[1..])
  }

  lemma {:induction false} DigitsOfNumber(s: seq<byte>)
    ensures Digits(Number(s), |s|) == s
  {
    if s != [] {
      var v := Number(s[1..]);
      LowDigit(s[0], v);
      DigitsOfNumber(s[1..]);
    }
  }

  lemma LowDigit(b: byte, v: nat)
    ensures ((b as nat) + 256 * v) % 256 == b as nat && ((b as nat) + 256 * v) / 256 == v
    ensures LowOctet((b as nat) + 256 * v) == b
  {
  }

  /** The length in bits, so that its octets leave in the right order. */
  function Queued(algo: HashAlgo, length: nat): nat {
    if algo.BigEndian() then SwapInt64(8 * length) else 8 * length
  }

  lemma QueuedDigits(algo: HashAlgo, length: nat)
    requires 8 * length < U64
    ensures Digits(Queued(algo, length), 8) == LengthField(algo, length)
  {
    assert 8 * length % U64 == 8 * length;
    hide Digits, Reversed;
    DigitsOfNumber(Reversed(Digits(8 * length, 8)));
  }

  /** Where the secret length puts the end of the padded message, counted from the data. */
  function End(headerLen: nat, dataLen: nat): nat {
    dataLen + PaddingSize(headerLen + dataLen) + 8
  }

  /** Octet i behind the prefix: data, 0x80, zeroes, the length field, and zeroes again. */
  function StreamAt(data: seq<byte>, dataLen: nat, padTo: nat, field: seq<byte>, i: nat): byte
    requires dataLen <= |data| && dataLen < padTo && |field| == 8
  {
    if i < dataLen then data[i]
    else if i == dataLen then 0x80
    else if padTo <= i < padTo + 8 then field[i - padTo]
    else 0
  }

  function Stream(data: seq<byte>, dataLen: nat, padTo: nat, field: seq<byte>, n: nat): (r: seq<byte>)
    requires dataLen <= |data| && dataLen < padTo && |field| == 8
    ensures |r| == n
  {
    seq(n, i requires 0 <= i < n => StreamAt(data, dataLen, padTo, field, i))
  }

  /** Up to the end the stream is the padded message. */
  lemma StreamIsPadded(algo: HashAlgo, prefix: seq<byte>, data: seq<byte>, dataLen: nat)
    requires dataLen <= |data|
    ensures var length := |prefix| + dataLen;
      && PaddingSize(length) > 0
      && prefix
         + Stream(data, dataLen, dataLen + PaddingSize(length), LengthField(algo, length), End(|prefix|, dataLen))
         == Padded(algo, prefix + data[..dataLen])
  {
    var length := |prefix| + dataLen;
    PaddingFills(length);
    var field := LengthField(algo, length);
    StreamParts(data, dataLen, length, field);
    hide Stream, LengthField, Padding, PaddingSize;
    assert |prefix + data[..dataLen]| == length;
    assert prefix + (data[..dataLen] + Padding(length) + field)
      == prefix + data[..dataLen] + Padding(length) + field;
  }

  lemma StreamParts(data: seq<byte>, dataLen: nat, length: nat, field: seq<byte>)
    requires dataLen <= |data| && |field| == 8 && PaddingSize(length) > 0
    ensures Stream(data, dataLen, dataLen + PaddingSize(length), field, dataLen + PaddingSize(length) + 8)
      == data[..dataLen] + Padding(length) + field
  {
    hide PaddingSize;
  }

  /** The end lies at a block boundary, behind every public length that is at most 255 longer,
      and within the blocks that are hashed. */
  lemma EndPlaced(headerLen: nat, dataLen: nat, maxDataLen: nat, n: nat)
    requires dataLen <= maxDataLen
    requires n == RoundUp(headerLen + maxDataLen + MIN_PAD_SIZE) - headerLen
    ensures (headerLen + End(headerLen, dataLen)) % BLOCK_SIZE == 0
    ensures dataLen + MIN_PAD_SIZE <= End(headerLen, dataLen) <= n
    ensures maxDataLen <= n < maxDataLen + MIN_PAD_SIZE + BLOCK_SIZE
  {
    PaddingFills(headerLen + dataLen);
    RoundUpBounds(headerLen + maxDataLen + MIN_PAD_SIZE);
    var e, r := headerLen + End(headerLen, dataLen), RoundUp(headerLen + maxDataLen + MIN_PAD_SIZE);
    assert e < r + BLOCK_SIZE;
    Multiples(e, r);
  }

  function RoundUp(v: nat): nat { (v + BLOCK_SIZE - 1) / BLOCK_SIZE * BLOCK_SIZE }

  lemma RoundUpBounds(v: nat)
    ensures v <= RoundUp(v) < v + BLOCK_SIZE && RoundUp(v) % BLOCK_SIZE == 0
  {
    Remainder((v + BLOCK_SIZE - 1) / BLOCK_SIZE, 0);
  }

  lemma Multiples(e: nat, r: nat)
    requires e % BLOCK_SIZE == 0 && r % BLOCK_SIZE == 0 && e < r + BLOCK_SIZE
    ensures e <= r
  {
  }

  /** The length of the padding string as the code computes it. */
  lemma PaddingLength(length: nat)
    ensures BLOCK_SIZE - (length + MIN_PAD_SIZE - 1) % BLOCK_SIZE == PaddingSize(length)
  {
    var q, r := length / BLOCK_SIZE, length % BLOCK_SIZE;
    if r < 56 { Remainder(q, r + 8); } else { Remainder(q + 1, r + 8 - BLOCK_SIZE); }
  }

  // ----- Verification -----

  function HeaderLen(kind: Kind, x: MacInput): nat { |x.macKey| + PadLen(kind) + 11 }

  /** The octets behind the prefix that are hashed, a function of public lengths only. */
  function Hashed(kind: Kind, x: MacInput, maxDataLen: nat): nat {
    RoundUpBounds(HeaderLen(kind, x) + maxDataLen + MIN_PAD_SIZE);
    RoundUp(HeaderLen(kind, x) + maxDataLen + MIN_PAD_SIZE) - HeaderLen(kind, x)
  }

  /** How many octets of the length field have left in front of position i. */
  function Sent(padTo: nat, i: nat): nat {
    if i <= padTo then 0 else if i >= padTo + 8 then 8 else i - padTo
  }

  /** One octet, composed by masks; low is the octet of the length field that is due next, and
      c tells whether it left. */
  method ComposeOctet(data: seq<byte>, dataLen: nat, padTo: nat, low: byte, i: nat) returns (b: byte, c: Flag)
    requires dataLen <= |data| && i < |data| && dataLen < padTo
    ensures c == if padTo <= i < padTo + 8 then 1 else 0
    ensures b ==
      if i < dataLen then data[i] else if i == dataLen then 0x80 else if padTo <= i < padTo + 8 then low else 0
  {
    b := 0;
    c := TestLt(i, dataLen);
    b := Select8(b, data[i], c);
    c := TestEq(i, dataLen);
    b := Select8(b, 0x80, c);
    var j := padTo;
    c := TestGte(i, j);
    j := j + 8;
    c := Both(c, TestLt(i, j));
    b := Select8(b, low, c);
  }

  /** The octet at position i leaves, and bitLen gives up an octet of the length when due. */
  method NextOctet(data: seq<byte>, dataLen: nat, padTo: nat, bitLen: nat, ghost field: seq<byte>, i: nat)
    returns (b: byte, rest: nat)
    requires dataLen <= |data| && i < |data| && dataLen < padTo && |field| == 8
    requires Digits(bitLen, 8 - Sent(padTo, i)) == field[Sent(padTo, i)..]
    ensures b == StreamAt(data, dataLen, padTo, field, i)
    ensures Digits(rest, 8 - Sent(padTo, i + 1)) == field[Sent(padTo, i + 1)..]
  {
    ghost var e := Sent(padTo, i);
    if e < 8 { FirstDigit(bitLen, 8 - e); }
    assert padTo <= i < padTo + 8 ==> field[e..][0] == field[e] && field[e..][1..] == field[e + 1..];
    hide Digits, LowOctet;
    var c;
    b, c := ComposeOctet(data, dataLen, padTo, LowOctet(bitLen), i);
    rest := Select(bitLen, bitLen / 256, c);
  }

  lemma FirstDigit(v: nat, n: nat)
    requires n > 0
    ensures Digits(v, n)[0] == LowOctet(v) && Digits(v, n)[1..] == Digits(v / 256, n - 1)
  {
  }

  /** The masked copy of a hash value. */
  method SelectInto(temp2: array<byte>, temp1: seq<byte>, c: Flag)
    requires |temp1| <= temp2.Length
    modifies temp2
    ensures temp2[..|temp1|] == if c == 1 then temp1 else old(temp2[..|temp1|])
  {
    var j := 0;
    while j < |temp1|
      invariant 0 <= j <= |temp1|
      invariant temp2[..j] == if c == 1 then temp1[..j] else old(temp2[..j])
      invariant temp2[j..] == old(temp2[j..])
    {
      temp2[j] := Select8(temp2[j], temp1[j], c);
      j := j + 1;
    }
  }

  /** What the loop over the last blocks has done when it stands in front of octet i. */
  ghost predicate Progress(ctx: HashContext, prefix: seq<byte>, data: seq<byte>, dataLen: nat, padTo: nat,
                           field: seq<byte>, bitLen: nat, temp2: array<byte>, i: nat)
    requires dataLen <= |data| && dataLen < padTo && |field| == 8
    reads ctx, ctx.buffer, temp2
  {
    && ctx.Valid()
    && ctx.absorbed == prefix + Stream(data, dataLen, padTo, field, i)
    && Digits(bitLen, 8 - Sent(padTo, i)) == field[Sent(padTo, i)..]
    && ctx.algo.DigestSize() <= temp2.Length
    && (i >= padTo + 8 ==>
          temp2[..ctx.algo.DigestSize()]
            == ctx.algo.output(Absorb(ctx.algo, ctx.algo.start,
                                      prefix + Stream(data, dataLen, padTo, field, padTo + 8))))
  }

  /** The hash of the padded message is picked among those of all candidate blocks. */
  method HashStream(ctx: HashContext, x: MacInput, data: seq<byte>, dataLen: nat, maxDataLen: nat)
    returns (inner: seq<byte>)
    requires ctx.Valid() && ctx.algo.Lawful() && x.Sized()
    requires dataLen <= maxDataLen <= dataLen + 255 && maxDataLen < 0x1000_0000
    requires Hashed(ctx.algo.kind, x, maxDataLen) <= |data|
    modifies ctx, ctx.buffer
    ensures inner == Digest(ctx.algo, Prefix(ctx.algo.kind, x) + data[..dataLen])
  {
    var headerLen := HeaderLen(ctx.algo.kind, x);
    var paddingLen := (headerLen + dataLen + MIN_PAD_SIZE - 1) % BLOCK_SIZE;
    paddingLen := BLOCK_SIZE - paddingLen;
    var bitLen := Queued(ctx.algo, headerLen + dataLen);
    var n := (headerLen + maxDataLen + MIN_PAD_SIZE + BLOCK_SIZE - 1) / BLOCK_SIZE * BLOCK_SIZE - headerLen;
    var padTo := dataLen + paddingLen;
    ghost var prefix, field := Prefix(ctx.algo.kind, x), LengthField(ctx.algo, headerLen + dataLen);
    Arrangement(ctx.algo, x, data, dataLen, maxDataLen, headerLen, padTo, n);
    var temp2 := new byte[20];
    HashPrefix(ctx, x);
    var i := 0;
    if maxDataLen > 255 {
      i := maxDataLen - 255;
      ctx.Update(data[..i]);
    }
    StreamStart(prefix, data, dataLen, padTo, field, i);
    assert Sent(padTo, i) == 0 && field[0..] == field;
    hide HashContext.Valid, Absorb, Digits, Stream, Digest, PaddingSize, Prefix, LengthField, Queued, HashAlgo.Lawful;
    assert Progress(ctx, prefix, data, dataLen, padTo, field, bitLen, temp2, i);
    inner := HashBlocks(ctx, prefix, data, dataLen, padTo, field, bitLen, temp2, i, n, headerLen);
  }

  /** How the lengths fit together. */
  lemma Arrangement(algo: HashAlgo, x: MacInput, data: seq<byte>, dataLen: nat, maxDataLen: nat,
                    headerLen: nat, padTo: nat, n: nat)
    requires x.Sized() && dataLen <= maxDataLen < 0x1000_0000 && maxDataLen <= |data|
    requires headerLen == HeaderLen(algo.kind, x) && n == Hashed(algo.kind, x, maxDataLen)
    requires padTo == dataLen + (BLOCK_SIZE - (headerLen + dataLen + MIN_PAD_SIZE - 1) % BLOCK_SIZE)
    ensures |Prefix(algo.kind, x)| == headerLen && dataLen < padTo && padTo + 8 <= n && maxDataLen <= n
    ensures BlockEnd(padTo + 8 + headerLen)
    ensures var field := LengthField(algo, headerLen + dataLen);
      && Digits(Queued(algo, headerLen + dataLen), 8) == field
      && Digest(algo, Prefix(algo.kind, x) + data[..dataLen])
         == algo.output(Absorb(algo, algo.start, Prefix(algo.kind, x) + Stream(data, dataLen, padTo, field, padTo + 8)))
  {
    hide Absorb, Padded, Digits, PaddingSize, LengthField, Stream, Queued, RoundUp;
    PaddingLength(headerLen + dataLen);
    EndPlaced(headerLen, dataLen, maxDataLen, n);
    QueuedDigits(algo, headerLen + dataLen);
    StreamIsPadded(algo, Prefix(algo.kind, x), data, dataLen);
  }

  lemma StreamStart(prefix: seq<byte>, data: seq<byte>, dataLen: nat, padTo: nat, field: seq<byte>, i: nat)
    requires i <= dataLen <= |data| && dataLen < padTo && |field| == 8
    ensures prefix + Stream(data, dataLen, padTo, field, i) == prefix + data[..i]
    ensures prefix + data[..0] == prefix
  {
    assert Stream(data, dataLen, padTo, field, i) == data[..i];
  }

  lemma StreamNext(prefix: seq<byte>, data: seq<byte>, dataLen: nat, padTo: nat, field: seq<byte>, i: nat)
    requires dataLen <= |data| && dataLen < padTo && |field| == 8
    ensures prefix + Stream(data, dataLen, padTo, field, i + 1)
      == prefix + Stream(data, dataLen, padTo, field, i) + [StreamAt(data, dataLen, padTo, field, i)]
  {
    assert Stream(data, dataLen, padTo, field, i + 1)
      == Stream(data, dataLen, padTo, field, i) + [StreamAt(data, dataLen, padTo, field, i)];
  }

  /** The loop over the octets from the first position on that the secret length can affect. */
  method HashBlocks(ctx: HashContext, ghost prefix: seq<byte>, data: seq<byte>, dataLen: nat, padTo: nat,
                    ghost field: seq<byte>, queued: nat, temp2: array<byte>, first: nat, n: nat, headerLen: nat)
    returns (inner: seq<byte>)
    requires dataLen <= |data| && dataLen < padTo && padTo + 8 <= n <= |data| && |field| == 8 && first <= n
    requires Progress(ctx, prefix, data, dataLen, padTo, field, queued, temp2, first)
    requires ctx.algo.Lawful() && |prefix| == headerLen && BlockEnd(padTo + 8 + headerLen)
    requires temp2 != ctx.buffer
    modifies ctx, ctx.buffer, temp2
    ensures inner
      == ctx.algo.output(Absorb(ctx.algo, ctx.algo.start, prefix + Stream(data, dataLen, padTo, field, padTo + 8)))
  {
    hide Absorb, Stream, Digits, HashContext.Valid, HashAlgo.Lawful;
    var i, bitLen := first, queued;
    while i < n
      invariant i <= n
      invariant Progress(ctx, prefix, data, dataLen, padTo, field, bitLen, temp2, i)
    {
      bitLen := HashOctet(ctx, prefix, data, dataLen, padTo, field, bitLen, temp2, i, headerLen);
      i := i + 1;
    }
    inner := temp2[..ctx.algo.DigestSize()];
  }

  predicate BlockEnd(n: nat) { n % BLOCK_SIZE == 0 }

  /** One round of the loop. */
  method HashOctet(ctx: HashContext, ghost prefix: seq<byte>, data: seq<byte>, dataLen: nat, padTo: nat,
                   ghost field: seq<byte>, bitLen: nat, temp2: array<byte>, i: nat, headerLen: nat)
    returns (rest: nat)
    requires dataLen <= |data| && dataLen < padTo && |field| == 8 && i < |data|
    requires Progress(ctx, prefix, data, dataLen, padTo, field, bitLen, temp2, i)
    requires ctx.algo.Lawful() && |prefix| == headerLen && BlockEnd(padTo + 8 + headerLen)
    requires temp2 != ctx.buffer
    modifies ctx, ctx.buffer, temp2
    ensures Progress(ctx, prefix, data, dataLen, padTo, field, rest, temp2, i + 1)
  {
    StreamNext(prefix, data, dataLen, padTo, field, i);
    hide HashContext.Valid, Absorb, Digits, Stream, StreamAt, Sent, BlockEnd;
    var b;
    b, rest := NextOctet(data, dataLen, padTo, bitLen, field, i);
    ctx.Update([b]);
    if BlockEnd(i + 1 + headerLen) {
      var temp1 := ctx.FinalRaw();
      SelectInto(temp2, temp1, TestEq(i + 1, padTo + 8));
    }
  }

  /** The comparison of the two MAC values. */
  method Compare(mac: seq<byte>, temp1: seq<byte>) returns (bad: Flag)
    requires |mac| == |temp1|
    ensures bad == if mac == temp1 then 0 else 1
  {
    var b: Flag, i := 0, 0;
    while i < |temp1|
      invariant 0 <= i <= |temp1|
      invariant b == 0 <==> mac[..i] == temp1[..i]
    {
      b := Differ(b, mac[i], temp1[i]);
      i := i + 1;
    }
    assert mac[..i] == mac && temp1[..i] == temp1;
    bad := TestNeq8(b, 0);
  }

  /** sslVerifyMac accepts exactly the MAC that sslComputeMac yields for the first dataLen octets,
      for every secret length within 255 of the public one. */
  method VerifyMac(ctx: HashContext, x: MacInput, data: seq<byte>, dataLen: nat, maxDataLen: nat, mac: seq<byte>)
    returns (bad: Flag)
    requires ctx.Valid() && ctx.algo.Lawful() && x.Sized()
    requires dataLen <= maxDataLen <= dataLen + 255 && maxDataLen < 0x1000_0000
    requires Hashed(ctx.algo.kind, x, maxDataLen) <= |data| && |mac| == ctx.algo.DigestSize()
    modifies ctx, ctx.buffer
    ensures bad == if ctx.algo.kind != OtherHash && mac == Mac(ctx.algo, x, data[..dataLen]) then 0 else 1
  {
    if ctx.algo.kind == OtherHash {
      return 1;
    }
    var inner := HashStream(ctx, x, data, dataLen, maxDataLen);
    var temp1 := HashOuter(ctx, x, inner);
    bad := Compare(mac, temp1);
  }
}
