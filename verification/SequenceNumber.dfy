/** The 48-bit record sequence number, stored most significant octet first. */
module SequenceNumber {
  import opened Bytes

  const MODULUS: nat := 0x1_0000_0000_0000

  function Value(b: array<byte>): nat
    requires b.Length == 6
    reads b
  {
    Load48(b[..], 0)
  }

  /** dtlsIncSequenceNumber: increments octet after octet from the right until one does not
      wrap; the number goes up by one modulo 2^48. */
  method Increment(b: array<byte>)
    requires b.Length == 6
    modifies b
    ensures Value(b) == (old(Value(b)) + 1) % MODULUS
  {
    ghost var was := b[..];
    var i := 5;
    while i >= 0
      invariant -1 <= i <= 5
      invariant forall k :: 0 <= k <= i ==> b[k] == was[k]
      invariant forall k :: i < k < 6 ==> b[k] == 0 && was[k] == 255
    {
      b[i] := (b[i] as int + 1) % 256;
      if b[i] != 0 {
        CarryStops(was, b[..], i);
        return;
      }
      i := i - 1;
    }
  }

  /** The octets of a number are stored as they are. */
  method Store(b: array<byte>, octets: seq<byte>)
    requires b.Length == 6 && |octets| == 6
    modifies b
    ensures b[..] == octets && Value(b) == Load48(octets, 0)
  {
    b[0], b[1], b[2] := octets[0], octets[1], octets[2];
    b[3], b[4], b[5] := octets[3], octets[4], octets[5];
    assert b[..] == octets;
  }

  /** The value before and after, when the carry stops at octet i. */
  lemma CarryStops(was: seq<byte>, now: seq<byte>, i: nat)
    requires |was| == 6 && |now| == 6 && i < 6
    requires forall k :: 0 <= k < i ==> now[k] == was[k]
    requires now[i] as int == was[i] as int + 1
    requires forall k :: i < k < 6 ==> now[k] == 0 && was[k] == 255
    ensures Load48(now, 0) == (Load48(was, 0) + 1) % MODULUS
  {
    assert Load48(now, 0) == Load48(was, 0) + 1;
  }
}
