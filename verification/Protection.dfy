/** How much a record grows when it is protected, and what the code estimates. */
module Protection {

  datatype CipherMode = NullCipher | StreamCipher | Cbc | Ccm | Gcm | ChaCha20Poly1305

  /** The lengths an encryption engine works with; macLen is 0 when there is no MAC, and
      explicitIv says that the version is TLS 1.1 or later. */
  datatype Suite = Suite(mode: CipherMode, macLen: nat, explicitIv: bool, recordIvLen: nat, authTagLen: nat,
                         blockSize: nat) {
    predicate Aead() { mode == Ccm || mode == Gcm || mode == ChaCha20Poly1305 }

    /** What the cipher suites of the library look like: an AEAD suite has no separate MAC,
        ChaCha20Poly1305 carries no nonce, a CBC suite has a block cipher. */
    predicate WellFormed() {
      && (Aead() ==> macLen == 0)
      && (mode == ChaCha20Poly1305 ==> recordIvLen == 0)
      && (mode == Cbc ==> blockSize > 0)
    }

    /** Neither encrypted nor authenticated. */
    predicate Unprotected() { mode == NullCipher && macLen == 0 }

    /** Every cipher comes with a tag or a MAC. */
    predicate Authenticates() { (Aead() ==> authTagLen > 0) && (mode == StreamCipher ==> macLen > 0) }

    /** MAC and explicit IV of a CBC record, everything but the padding. */
    function CbcFixed(): nat { macLen + if explicitIv then recordIvLen else 0 }
  }

  /** tlsComputeEncryptionOverhead */
  function Overhead(e: Suite, payloadLen: nat): nat
    requires e.WellFormed()
  {
    match e.mode
    case Cbc => e.CbcFixed() + (e.blockSize - (payloadLen + e.CbcFixed()) % e.blockSize)
    case Ccm => e.macLen + e.recordIvLen + e.authTagLen
    case Gcm => e.macLen + e.recordIvLen + e.authTagLen
    case ChaCha20Poly1305 => e.macLen + e.authTagLen
    case _ => e.macLen
  }

  /** What tlsEncryptRecord adds to a payload of n octets. A CBC record is padded by the least
      p + 1 octets, p < blockSize, that fill the last block. */
  function Growth(e: Suite, n: nat): nat
    requires e.WellFormed()
  {
    if e.Aead() then e.recordIvLen + e.authTagLen
    else if e.mode == Cbc then
      var r := (n + e.CbcFixed() + 1) % e.blockSize;
      e.CbcFixed() + (if r > 0 then e.blockSize - r else 0) + 1
    else e.macLen
  }

  lemma GrowthPositive(e: Suite, n: nat)
    requires e.WellFormed() && e.Authenticates()
    ensures Growth(e, n) == 0 <==> e.Unprotected()
  {
  }

  lemma NothingAdded(e: Suite, n: nat, estimatedFor: nat)
    requires e.WellFormed() && e.Unprotected()
    ensures Growth(e, n) == 0 && Overhead(e, estimatedFor) == 0
  {
  }

  /** How far an estimate made for some other length can fall short. */
  function Slack(e: Suite): nat
    requires e.WellFormed()
  {
    if e.mode == Cbc then e.blockSize - 1 else 0
  }

  lemma PaddingFillsBlock(x: nat, b: nat)
    requires b > 0
    ensures (if (x + 1) % b > 0 then b - (x + 1) % b else 0) + 1 == b - x % b
  {
    if x % b == b - 1 {
      assert x + 1 == b * (x / b + 1);
      assert (x + 1) % b == 0 by { MultipleMod(b, x / b + 1); }
    } else {
      assert x + 1 == b * (x / b) + (x % b + 1);
      SumMod(b, x / b, x % b + 1);
    }
  }

  lemma {:induction false} SumMod(b: nat, q: nat, r: nat)
    requires r < b
    ensures (b * q + r) % b == r
  {
    if q > 0 {
      SumMod(b, q - 1, r);
      assert b * q + r == (b * (q - 1) + r) + b;
      AddModulus(b * (q - 1) + r, b);
    }
  }

  lemma AddModulus(x: nat, b: nat)
    requires b > 0
    ensures (x + b) % b == x % b
  {
    var q := x / b;
    assert x + b == b * (q + 1) + x % b;
    assert (x + b) / b == q + 1 by {
      QuotientUnique(x + b, b, q + 1, x % b);
    }
  }

  lemma QuotientUnique(x: nat, b: nat, q: nat, r: nat)
    requires b > 0 && r < b && x == b * q + r
    ensures x / b == q
  {
    var p := x / b;
    assert x == b * p + x % b;
    if p < q {
      assert b * q >= b * p + b by { assert b * q == b * p + b * (q - p); Scaled(b, q - p); }
    } else if p > q {
      assert b * p >= b * q + b by { assert b * p == b * q + b * (p - q); Scaled(b, p - q); }
    }
  }

  lemma Scaled(b: nat, k: nat)
    requires k >= 1
    ensures b * k >= b
  {
  }

  lemma MultipleMod(b: nat, q: nat)
    requires b > 0
    ensures (b * q) % b == 0
  {
    SumMod(b, q, 0);
  }

  /** The estimate is exact when it is made for the length of the payload itself. */
  lemma OverheadIsGrowth(e: Suite, n: nat)
    requires e.WellFormed()
    ensures Growth(e, n) == Overhead(e, n)
  {
    if e.mode == Cbc {
      PaddingFillsBlock(n + e.CbcFixed(), e.blockSize);
    }
  }

  /** Whatever length the estimate was made for, growth exceeds it by at most the slack. */
  lemma GrowthBounded(e: Suite, n: nat, estimatedFor: nat)
    requires e.WellFormed()
    ensures Growth(e, n) <= Overhead(e, estimatedFor) + Slack(e)
  {
    OverheadIsGrowth(e, n);
  }

  /** The two estimates of the fragmentation code never fall short: the one that sizes
      fragments is made for length 0, the one that decides whether a record still fits the
      datagram counts the 13 octets of the record header as payload. */
  ghost predicate NeverUnderestimates(e: Suite)
    requires e.WellFormed()
  {
    forall n: nat :: Growth(e, n) <= Overhead(e, 0) && Growth(e, n) <= Overhead(e, n + 13)
  }

  /** They are safe for every suite except CBC ones, and for those only if the block size
      divided both the fixed part and 13, which no block cipher of 8 or 16 octets does. */
  lemma NeverUnderestimatesIff(e: Suite)
    requires e.WellFormed()
    ensures NeverUnderestimates(e) <==> e.mode != Cbc || (e.CbcFixed() % e.blockSize == 0 && 13 % e.blockSize == 0)
  {
    if e.mode == Cbc {
      if e.CbcFixed() % e.blockSize == 0 && 13 % e.blockSize == 0 {
        forall n: nat ensures Growth(e, n) <= Overhead(e, 0) && Growth(e, n) <= Overhead(e, n + 13) {
          OverheadIsGrowth(e, n);
          Divides(e.blockSize, n + e.CbcFixed(), 13);
        }
      } else {
        FallsShort(e);
      }
    }
  }

  /** A payload that needs a whole block of padding gives the estimates away. */
  lemma FallsShort(e: Suite)
    requires e.WellFormed() && e.mode == Cbc
    requires e.CbcFixed() % e.blockSize != 0 || 13 % e.blockSize != 0
    ensures exists n: nat :: Growth(e, n) > Overhead(e, 0) || Growth(e, n) > Overhead(e, n + 13)
  {
    var b, g := e.blockSize, e.CbcFixed();
    var n := b - g % b;
    WholeBlock(b, g);
    OverheadIsGrowth(e, n);
    assert Growth(e, n) == g + b;
    if g % b == 0 {
      Divides(b, 13, n + g);
      assert Growth(e, n) > Overhead(e, n + 13);
    } else {
      assert Growth(e, n) > Overhead(e, 0);
    }
  }

  lemma WholeBlock(b: nat, g: nat)
    requires b > 0
    ensures (b - g % b + g) % b == 0
  {
    assert b - g % b + g == b * (g / b + 1);
    MultipleMod(b, g / b + 1);
  }

  lemma Divides(b: nat, x: nat, d: nat)
    requires b > 0 && d % b == 0
    ensures (x + d) % b == x % b
  {
    var q := d / b;
    assert d == b * q;
    assert x + d == b * (x / b + q) + x % b by { assert b * (x / b + q) == b * (x / b) + b * q; }
    SumMod(b, x / b + q, x % b);
  }
}
