/** Single bits of 32-bit words under the shifts the replay window uses. A shift amount is a
    6-bit word, wide enough for 0 to 32. */
module WordBits {

  /** The bit of w selected by the mask 1 << b. */
  predicate BitOf(w: bv32, b: bv6)
    requires b < 32
  {
    w & ((1 as bv32) << b) != 0
  }

  predicate Bit(w: bv32, b: nat)
    requires b < 32
  {
    BitOf(w, Amount(b))
  }

  /** A shift amount as a word. */
  function Amount(k: nat): (a: bv6)
    requires k < 32
    ensures a < 32
  {
    AmountInRange(k);
    k as bv6
  }

  /** A word shifted left by k, its low bits taken from the next lower word. */
  function ShiftIn(hi: bv32, lo: bv32, k: nat): bv32
    requires k < 32
  {
    (hi << Amount(k)) | (lo >> (32 - Amount(k)))
  }

  /** A word with the bit 1 << k set. */
  function SetIn(w: bv32, k: nat): bv32
    requires k < 32
  {
    w | ((1 as bv32) << Amount(k))
  }

  /** Whether a bit is clear. */
  function IsClear(w: bv32, k: nat): (r: bool)
    requires k < 32
    ensures r <==> !Bit(w, k)
  {
    w & ((1 as bv32) << Amount(k)) == 0
  }

  /** The lowest word shifted left by k. */
  function ShiftUp(w: bv32, k: nat): bv32
    requires k < 32
  {
    w << Amount(k)
  }

  // ----- Amounts as numbers and as words -----

  lemma AmountValue(a: nat)
    requires a < 64
    ensures (a as bv6) as int == a
  {
  }

  lemma AmountInRange(a: nat)
    requires a < 32
    ensures (a as bv6) < 32
  {
  }

  lemma SameValue(x: bv6, y: bv6)
    requires x as int == y as int
    ensures x == y
  {
  }

  lemma ValueOrder(x: bv6, y: bv6)
    ensures x <= y <==> x as int <= y as int
  {
  }

  lemma DifferenceValue(x: bv6, y: bv6)
    requires y <= x
    ensures (x - y) as int == x as int - y as int
  {
  }

  lemma Difference(x: bv6, y: bv6, z: bv6)
    requires x as int == y as int + z as int
    ensures y <= x && x - y == z
  {
    ValueOrder(y, x);
    DifferenceValue(x, y);
    SameValue(x - y, z);
  }

  // ----- Bits under shifts, on words -----

  lemma CarryHigh(hi: bv32, lo: bv32, k: bv6, b: bv6, c: bv6)
    requires 1 <= k <= 31 && k <= b <= 31 && c == b - k
    ensures c <= 31 && (BitOf((hi << k) | (lo >> (32 - k)), b) <==> BitOf(hi, c))
  {
  }

  lemma CarryLow(hi: bv32, lo: bv32, k: bv6, b: bv6, c: bv6)
    requires 1 <= k <= 31 && b < k && c == 32 - (k - b)
    ensures c <= 31 && (BitOf((hi << k) | (lo >> (32 - k)), b) <==> BitOf(lo, c))
  {
  }

  lemma NoCarry(w: bv32, k: bv6, b: bv6)
    requires 1 <= k <= 31 && b <= 31
    ensures BitOf(w << k, b) <==> BitOf((w << k) | ((0 as bv32) >> (32 - k)), b)
  {
  }

  lemma SetOf(w: bv32, k: bv6, b: bv6)
    requires k <= 31 && b <= 31
    ensures BitOf(w | ((1 as bv32) << k), b) <==> b == k || BitOf(w, b)
  {
  }

  // ----- The same with bit numbers as integers -----

  /** A left shift by k that takes its low bits from the next lower word. */
  lemma ShiftedBit(hi: bv32, lo: bv32, k: nat, b: nat)
    requires 1 <= k <= 31 && b <= 31
    ensures Bit(ShiftIn(hi, lo, k), b)
            <==> if b >= k then Bit(hi, b - k) else Bit(lo, 32 - (k - b))
  {
    if b >= k {
      ShiftedHigh(hi, lo, k, b);
    } else {
      ShiftedLow(hi, lo, k, b);
    }
  }

  lemma ShiftedHigh(hi: bv32, lo: bv32, k: nat, b: nat)
    requires 1 <= k <= b <= 31
    ensures Bit(ShiftIn(hi, lo, k), b) <==> Bit(hi, b - k)
  {
    hide BitOf, Amount;
    HighPosition(k, b);
    CarryHigh(hi, lo, Amount(k), Amount(b), Amount(b - k));
  }

  lemma ShiftedLow(hi: bv32, lo: bv32, k: nat, b: nat)
    requires b < k <= 31
    ensures Bit(ShiftIn(hi, lo, k), b) <==> Bit(lo, 32 - (k - b))
  {
    hide BitOf, Amount;
    LowPosition(k, b);
    CarryLow(hi, lo, Amount(k), Amount(b), Amount(32 - (k - b)));
  }

  lemma AmountIs(k: nat)
    requires k < 32
    ensures Amount(k) as int == k
  {
    AmountValue(k);
  }

  lemma HighPosition(k: nat, b: nat)
    requires 1 <= k <= b <= 31
    ensures 1 <= Amount(k) <= Amount(b) <= 31
    ensures Amount(b - k) == Amount(b) - Amount(k)
  {
    hide Amount;
    AmountIs(k);
    AmountIs(b);
    AmountIs(b - k);
    HighWords(Amount(k), Amount(b), Amount(b - k));
  }

  lemma HighWords(x: bv6, y: bv6, z: bv6)
    requires 1 <= x as int <= y as int <= 31 && z as int == y as int - x as int
    ensures 1 <= x <= y <= 31 && z == y - x
  {
    Difference(y, x, z);
    ValueOrder(1, x);
    ValueOrder(y, 31);
  }

  lemma LowPosition(k: nat, b: nat)
    requires b < k <= 31
    ensures Amount(b) < Amount(k) <= 31
    ensures Amount(32 - (k - b)) == 32 - (Amount(k) - Amount(b))
  {
    hide Amount;
    AmountIs(k);
    AmountIs(b);
    AmountIs(32 - (k - b));
    LowWords(Amount(k), Amount(b), Amount(32 - (k - b)));
  }

  lemma LowWords(x: bv6, y: bv6, z: bv6)
    requires y as int < x as int <= 31 && z as int == 32 - (x as int - y as int)
    ensures y < x <= 31 && z == 32 - (x - y)
  {
    ValueOrder(x, y);
    ValueOrder(y, x);
    ValueOrder(x, 31);
    DifferenceValue(x, y);
    Difference(32, x - y, z);
  }

  lemma AmountPositive(k: nat)
    requires 1 <= k <= 31
    ensures 1 <= Amount(k)
  {
  }

  lemma SetBit(w: bv32, k: nat, b: nat)
    requires k <= 31 && b <= 31
    ensures Bit(SetIn(w, k), b) <==> b == k || Bit(w, b)
  {
    AmountInRange(k);
    AmountInRange(b);
    AmountValue(k);
    AmountValue(b);
    SetOf(w, k as bv6, b as bv6);
  }

  lemma ZeroWord(b: nat)
    requires b <= 31
    ensures !Bit(0, b)
  {
    AmountInRange(b);
  }
}
