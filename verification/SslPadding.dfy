/** The SSL 3.0 block cipher padding (section 5.2.3.2 of RFC 6101). */
module SslPadding {
  import opened Bytes
  import opened ConstantTime

  /** The padding string in front of the last octet carries the given octet throughout. */
  predicate Filled(data: seq<byte>, n: nat, v: byte)
    requires n < |data|
  {
    forall k :: |data| - 1 - n <= k < |data| - 1 ==> data[k] == v
  }

  /** The plain meaning: shorter than the payload and than a block, and filled with either its
      length or zeroes. */
  predicate WellPadded(data: seq<byte>, blockSize: nat)
    requires |data| > 0
  {
    var last := data[|data| - 1];
    var n: nat := last;
    n < |data| && n < blockSize && (Filled(data, n, last) || Filled(data, n, 0))
  }

  /** One octet of the padding string is wrong; octets in front of it never are. */
  predicate WrongAt(data: seq<byte>, n: nat, v: byte, i: nat)
    requires 1 <= i < |data|
  {
    i <= n && data[|data| - 1 - i] != v
  }

  /** One pass of the check: up to 255 octets are looked at, whatever n is. */
  method CheckFilled(data: seq<byte>, n: nat, v: byte) returns (bad: Flag)
    requires |data| > 0 && n < 256
    ensures n < |data| ==> (bad == 0 <==> Filled(data, n, v))
  {
    bad := 0;
    var i := 1;
    while i < |data| && i < 256
      invariant 1 <= i <= |data| && i <= 256
      invariant bad == 0 <==> forall j :: 1 <= j < i ==> !WrongAt(data, n, v, j)
    {
      var b := data[|data| - 1 - i];
      var c := TestLte(i, n);
      var mask := Select8(b, v, c);
      assert TestNeq8(b, mask) == 0 <==> !WrongAt(data, n, v, i);
      bad := Either(bad, TestNeq8(b, mask));
      i := i + 1;
    }
    if n < |data| {
      FilledMeans(data, n, v);
    }
  }

  lemma FilledMeans(data: seq<byte>, n: nat, v: byte)
    requires n < |data|
    ensures Filled(data, n, v) <==> forall j :: 1 <= j <= n ==> !WrongAt(data, n, v, j)
  {
    if forall j :: 1 <= j <= n ==> !WrongAt(data, n, v, j) {
      forall k | |data| - 1 - n <= k < |data| - 1 ensures data[k] == v {
        assert !WrongAt(data, n, v, |data| - 1 - k);
      }
    }
  }

  /** sslVerifyPadding decides exactly the plain meaning. */
  method VerifyPadding(data: seq<byte>, blockSize: nat) returns (bad: Flag, paddingLen: nat)
    requires |data| > 0
    ensures bad == if WellPadded(data, blockSize) then 0 else 1
    ensures paddingLen == if WellPadded(data, blockSize) then data[|data| - 1] else 0
  {
    var last := data[|data| - 1];
    var n: nat := last;
    bad := TestGte(n, |data|);
    bad := Either(bad, TestGte(n, blockSize));
    var bad1 := CheckFilled(data, n, last);
    var bad2 := CheckFilled(data, n, 0);
    bad := Either(bad, Both(bad1, bad2));
    paddingLen := Select(n, 0, bad);
  }
}
