/** The branch-free tests and selections of crypto.h, with their plain meaning, and why the
    8-bit macros have it. */
module ConstantTime {
  import opened Bytes

  /** 1 for true, 0 for false. */
  type Flag = c: int | 0 <= c <= 1

  function TestNeq8(a: byte, b: byte): Flag { if a != b then 1 else 0 }

  /** The second octet when the condition holds. */
  function Select8(a: byte, b: byte, c: Flag): byte { if c == 1 then b else a }

  function TestEq(a: nat, b: nat): Flag { if a == b then 1 else 0 }

  function TestLt(a: nat, b: nat): Flag { if a < b then 1 else 0 }

  function TestLte(a: nat, b: nat): Flag { if a <= b then 1 else 0 }

  function TestGte(a: nat, b: nat): Flag { if a >= b then 1 else 0 }

  function Select(a: nat, b: nat, c: Flag): nat { if c == 1 then b else a }

  function Either(a: Flag, b: Flag): Flag { if a == 1 || b == 1 then 1 else 0 }

  function Both(a: Flag, b: Flag): Flag { if a == 1 && b == 1 then 1 else 0 }

  /** The octet that collects differences: b | (x ^ y), as zero or not zero. */
  function Differ(b: Flag, x: byte, y: byte): Flag { if b == 0 && x == y then 0 else 1 }

  /** CRYPTO_TEST_NEQ_8 on the bits of an octet. */
  function NeqBits(x: bv8, y: bv8): bv8 { ((x ^ y) | (!(x ^ y) + 1)) >> 7 }

  /** CRYPTO_SELECT_8 */
  function SelectBits(x: bv8, y: bv8, c: bv8): bv8 { (x & (c - 1)) | (y & !(c - 1)) }

  lemma MacrosMean(x: bv8, y: bv8, b: bv8)
    ensures NeqBits(x, y) == if x != y then 1 else 0
    ensures SelectBits(x, y, 0) == x && SelectBits(x, y, 1) == y
    ensures b | (x ^ y) == 0 <==> b == 0 && x == y
  {
  }
}
