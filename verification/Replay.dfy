/** The anti-replay window (section 4.1.2.6 of RFC 6347): a bitmap over 32-bit words that
    slides with the highest validated sequence number. */
module Replay {
  import opened WordBits
  import SequenceNumber

  // ----- Bits of the whole bitmap -----

  predicate BitAt(ws: seq<bv32>, i: nat)
    requires i < 32 * |ws|
  {
    Bit(ws[i / 32], i % 32)
  }

  /** The bitmap of a set of accepted numbers: bit i stands for right - i. */
  ghost predicate Represents(ws: seq<bv32>, size: nat, right: int, accepted: set<int>)
    requires size <= 32 * |ws|
  {
    forall i :: 0 <= i < size ==> (BitAt(ws, i) <==> right - i in accepted)
  }

  function ShiftWords(ws: seq<bv32>, j: nat): (r: seq<bv32>)
    ensures |r| == |ws|
  {
    seq(|ws|, a requires 0 <= a < |ws| => if a >= j then ws[a - j] else 0)
  }

  function ShiftBits(ws: seq<bv32>, k: nat): (r: seq<bv32>)
    requires k < 32
    ensures |r| == |ws|
  {
    seq(|ws|, a requires 0 <= a < |ws| =>
      if a == 0 then ShiftUp(ws[0], k) else ShiftIn(ws[a], ws[a - 1], k))
  }

  /** Sliding by n bits, done as the code does it: whole words first, then the rest. */
  function Slide(ws: seq<bv32>, n: nat): (r: seq<bv32>)
    ensures |r| == |ws|
  {
    var moved := ShiftWords(ws, n / 32);
    if n % 32 > 0 then ShiftBits(moved, n % 32) else moved
  }

  lemma ShiftedWordBit(ws: seq<bv32>, j: nat, i: nat)
    requires i < 32 * |ws|
    ensures BitAt(ShiftWords(ws, j), i) <==> i >= 32 * j && BitAt(ws, i - 32 * j)
  {
    hide Bit;
    if i >= 32 * j {
      assert (i - 32 * j) / 32 == i / 32 - j && (i - 32 * j) % 32 == i % 32;
    } else {
      assert i / 32 < j;
      ZeroWord(i % 32);
    }
  }

  lemma ShiftedBitAt(ws: seq<bv32>, k: nat, i: nat)
    requires 1 <= k < 32 && i < 32 * |ws|
    ensures BitAt(ShiftBits(ws, k), i) <==> i >= k && BitAt(ws, i - k)
  {
    hide Bit;
    var a, b := i / 32, i % 32;
    if a == 0 {
      LowestWord(ws[0], k, b);
    } else {
      ShiftedBit(ws[a], ws[a - 1], k, b);
      if b >= k {
        assert (i - k) / 32 == a && (i - k) % 32 == b - k;
      } else {
        assert (i - k) / 32 == a - 1 && (i - k) % 32 == 32 - (k - b);
      }
    }
  }

  lemma LowestWord(w: bv32, k: nat, b: nat)
    requires 1 <= k < 32 && b < 32
    ensures Bit(ShiftUp(w, k), b) <==> b >= k && Bit(w, b - k)
  {
    ShiftedBit(w, 0, k, b);
    AmountPositive(k);
    NoCarry(w, Amount(k), Amount(b));
    if b < k { ZeroWord(32 - (k - b)); }
  }

  /** Sliding moves every bit up by n and clears the n lowest. */
  lemma SlideBit(ws: seq<bv32>, n: nat, i: nat)
    requires i < 32 * |ws|
    ensures BitAt(Slide(ws, n), i) <==> i >= n && BitAt(ws, i - n)
  {
    hide BitAt, ShiftBits, ShiftWords;
    var j, k := n / 32, n % 32;
    var moved := ShiftWords(ws, j);
    if k > 0 {
      ShiftedBitAt(moved, k, i);
      if i >= k { ShiftedWordBit(ws, j, i - k); }
    } else {
      ShiftedWordBit(ws, j, i);
    }
  }

  lemma SetBitAt(ws: seq<bv32>, m: nat, i: nat)
    requires m < 32 * |ws| && i < 32 * |ws|
    ensures BitAt(ws[m / 32 := SetIn(ws[m / 32], m % 32)], i) <==> i == m || BitAt(ws, i)
  {
    hide Bit, SetIn;
    var a, b := m / 32, i / 32;
    assert i == m <==> b == a && i % 32 == m % 32;
    if b == a {
      SetBit(ws[a], m % 32, i % 32);
    }
  }

  // ----- The window as a value -----

  /** The right edge and the sequence numbers validated so far in this epoch. */
  datatype View = View(right: int, accepted: set<int>) {
    ghost predicate Consistent() {
      && 0 <= right < SequenceNumber.MODULUS
      && (forall n :: n in accepted ==> 0 <= n <= right)
      && (if accepted == {} then right == 0 else right in accepted)
    }

    /** What the check must decide, in terms of the plain set. */
    predicate Passes(size: nat, enabled: bool, n: int) {
      !enabled || n > right || (right - n < size && n !in accepted)
    }

    function Validated(n: int): View {
      View(if n > right then n else right, accepted + {n})
    }
  }

  /** A record as it reaches the window: its number, and whether its MAC will verify. */
  datatype Arrival = Arrival(seqNum: int, authentic: bool)

  /** One record through check, decryption and update; true when it was accepted. */
  function Arrive(v: View, size: nat, enabled: bool, a: Arrival): (View, bool) {
    if v.Passes(size, enabled, a.seqNum) && a.authentic then (v.Validated(a.seqNum), true) else (v, false)
  }

  /** The numbers accepted over a run, in order. */
  function Accepted(v: View, size: nat, run: seq<Arrival>): seq<int>
    decreases |run|
  {
    if run == [] then []
    else
      var (next, taken) := Arrive(v, size, true, run[0]);
      (if taken then [run[0].seqNum] else []) + Accepted(next, size, run[1..])
  }

  function After(v: View, size: nat, run: seq<Arrival>): View
    decreases |run|
  {
    if run == [] then v else After(Arrive(v, size, true, run[0]).0, size, run[1..])
  }

  ghost predicate Numbered(run: seq<Arrival>) {
    forall k :: 0 <= k < |run| ==> 0 <= run[k].seqNum < SequenceNumber.MODULUS
  }

  /** Over a whole run no sequence number is accepted twice, none that was accepted before
      the run is accepted again, and the view at the end holds exactly what was accepted. */
  lemma {:induction false} NoReplay(v: View, size: nat, run: seq<Arrival>)
    requires size >= 1 && v.Consistent() && Numbered(run)
    ensures var log := Accepted(v, size, run);
      && (forall i, j :: 0 <= i < j < |log| ==> log[i] != log[j])
      && (forall i :: 0 <= i < |log| ==> log[i] !in v.accepted)
      && After(v, size, run).Consistent()
      && After(v, size, run).accepted == v.accepted + set n | n in log
    decreases |run|
  {
    if run != [] {
      var (next, taken) := Arrive(v, size, true, run[0]);
      NoReplay(next, size, run[1..]);
      var rest := Accepted(next, size, run[1..]);
      var log := Accepted(v, size, run);
      if taken {
        assert log == [run[0].seqNum] + rest;
        assert run[0].seqNum !in v.accepted;
        assert forall i :: 0 < i < |log| ==> log[i] == rest[i - 1];
      } else {
        assert log == rest;
      }
    }
  }

  /** After any run, what still passes is exactly what is new and not left of the window. */
  lemma FreshNumbersPass(v: View, size: nat, run: seq<Arrival>, n: int)
    requires size >= 1 && v.Consistent() && Numbered(run)
    ensures var w := After(v, size, run);
      w.Passes(size, true, n) <==>
        n > w.right - size && n !in v.accepted && n !in Accepted(v, size, run)
  {
    NoReplay(v, size, run);
    var w := After(v, size, run);
    if n > w.right { assert n !in w.accepted; }
    assert n in w.accepted <==> n in v.accepted || n in Accepted(v, size, run);
  }

  // ----- The bitmap in place -----

  /** The replay fields of the TLS context: bitmap, switch, and right edge. */
  class ReplayWindow {
    const size: nat
    const words: array<bv32>
    var enabled: bool
    var right: int
    ghost var accepted: set<int>

    ghost function Abstract(): View
      reads this
    {
      View(right, accepted)
    }

    ghost predicate Valid()
      reads this, words
    {
      && size >= 1
      && words.Length == (size + 31) / 32
      && Abstract().Consistent()
      && Represents(words[..], size, right, accepted)
    }

    constructor (size: nat, enabled: bool)
      requires size >= 1
      ensures Valid() && fresh(words)
      ensures this.size == size && this.enabled == enabled
      ensures Abstract() == View(0, {})
    {
      this.size := size;
      this.enabled := enabled;
      right, accepted := 0, {};
      words := new bv32[(size + 31) / 32];
      new;
      Init();
    }

    /** Start of an epoch: the sequence number has just been cleared. */
    method Init()
      requires size >= 1 && words.Length == (size + 31) / 32
      requires right == 0
      modifies `accepted, words
      ensures Valid()
      ensures Abstract() == View(0, {})
    {
      Clear();
      accepted := {};
      ClearedBits(words[..]);
    }

    method Clear()
      modifies words
      ensures forall a :: 0 <= a < words.Length ==> words[a] == 0
    {
      var i := 0;
      while i < words.Length
        invariant 0 <= i <= words.Length
        invariant forall a :: 0 <= a < i ==> words[a] == 0
      {
        words[i] := 0;
        i := i + 1;
      }
    }

    /** dtlsCheckReplayWindow answers as the plain set of accepted numbers would. */
    method Check(n: int) returns (ok: bool)
      requires Valid() && 0 <= n < SequenceNumber.MODULUS
      ensures ok <==> Abstract().Passes(size, enabled, n)
    {
      hide IsClear, Bit;
      if enabled {
        if n <= right {
          var d := right - n;
          if d < size {
            assert d / 32 < words.Length;
            ok := IsClear(words[d / 32], d % 32);
            assert ok <==> !BitAt(words[..], d);
          } else {
            ok := false;
          }
        } else {
          ok := true;
        }
      } else {
        ok := true;
      }
    }

    /** dtlsUpdateReplayWindow adds n to the accepted numbers, for any jump distance. */
    method Update(n: int)
      requires Valid() && 0 <= n < SequenceNumber.MODULUS
      modifies this, words
      ensures Valid() && enabled == old(enabled)
      ensures Abstract() == old(Abstract()).Validated(n)
    {
      ghost var before := words[..];
      if n <= right {
        var d := right - n;
        if d < size {
          assert d / 32 < words.Length;
          words[d / 32] := SetIn(words[d / 32], d % 32);
          assert words[..] == before[d / 32 := SetIn(before[d / 32], d % 32)];
          MarkedBits(before, words[..], d, size, right, accepted);
        } else {
          UnmarkedBits(before, n, size, right, accepted);
        }
      } else {
        var d := n - right;
        if d < size {
          SlideWords(d);
        } else {
          Clear();
        }
        assert (size + 31) / 32 >= 1;
        ghost var slid := words[..];
        words[0] := SetIn(words[0], 0);
        assert words[..] == slid[0 := SetIn(slid[0], 0)];
        if d < size {
          SlidBits(before, words[..], d, size, right, n, accepted);
        } else {
          JumpedBits(slid, words[..], size, right, n, accepted);
        }
        right := n;
      }
      accepted := accepted + {n};
    }

    /** A short jump: first shift words, then shift bits. */
    method SlideWords(n: nat)
      requires n / 32 < words.Length
      modifies words
      ensures words[..] == Slide(old(words[..]), n)
    {
      var j, k := n / 32, n % 32;
      if j > 0 {
        MoveWords(j);
      } else {
        assert words[..] == ShiftWords(words[..], 0);
      }
      if k > 0 {
        MoveBits(k);
      }
    }

    /** From the top down, then zeroes for the lowest words. */
    method MoveWords(j: nat)
      requires 1 <= j < words.Length
      modifies words
      ensures words[..] == ShiftWords(old(words[..]), j)
    {
      ghost var before := words[..];
      var i := words.Length - 1;
      while i >= j
        invariant j - 1 <= i < words.Length
        invariant forall a :: 0 <= a <= i ==> words[a] == before[a]
        invariant forall a :: i < a < words.Length ==> words[a] == before[a - j]
      {
        words[i] := words[i - j];
        i := i - 1;
      }
      i := 0;
      while i < j
        invariant 0 <= i <= j
        invariant forall a :: 0 <= a < i ==> words[a] == 0
        invariant forall a :: j <= a < words.Length ==> words[a] == before[a - j]
      {
        words[i] := 0;
        i := i + 1;
      }
    }

    /** From the top down, each word taking its carry from the one below. */
    method MoveBits(k: nat)
      requires 1 <= k < 32 && words.Length >= 1
      modifies words
      ensures words[..] == ShiftBits(old(words[..]), k)
    {
      hide ShiftIn, ShiftUp;
      ghost var before := words[..];
      var i := words.Length - 1;
      while i >= 1
        invariant 0 <= i < words.Length
        invariant forall a :: 0 <= a <= i ==> words[a] == before[a]
        invariant forall a :: i < a < words.Length ==> words[a] == ShiftIn(before[a], before[a - 1], k)
      {
        words[i] := ShiftIn(words[i], words[i - 1], k);
        i := i - 1;
      }
      words[0] := ShiftUp(words[0], k);
    }

    /** The way of one record through dtlsReadRecord; authentic is the verdict of the MAC. */
    method Receive(n: int, authentic: bool) returns (taken: bool)
      requires Valid() && 0 <= n < SequenceNumber.MODULUS
      modifies this, words
      ensures Valid() && enabled == old(enabled)
      ensures (Abstract(), taken) == Arrive(old(Abstract()), size, enabled, Arrival(n, authentic))
    {
      taken := Check(n);
      if taken {
        taken := authentic;
        if taken {
          Update(n);
        }
      }
    }
  }

  // ----- Why the bitmap keeps representing the set -----

  lemma ClearedBits(ws: seq<bv32>)
    requires forall a :: 0 <= a < |ws| ==> ws[a] == 0
    ensures forall i :: 0 <= i < 32 * |ws| ==> !BitAt(ws, i)
  {
    forall i | 0 <= i < 32 * |ws| ensures !BitAt(ws, i) {
      ZeroWord(i % 32);
    }
  }

  lemma MarkedBits(ws: seq<bv32>, after: seq<bv32>, d: nat, size: nat, right: int, accepted: set<int>)
    requires d < size <= 32 * |ws| && Represents(ws, size, right, accepted)
    requires after == ws[d / 32 := SetIn(ws[d / 32], d % 32)]
    ensures Represents(after, size, right, accepted + {right - d})
  {
    hide BitAt;
    forall i | 0 <= i < size ensures BitAt(after, i) <==> right - i in accepted + {right - d} {
      SetBitAt(ws, d, i);
    }
  }

  lemma UnmarkedBits(ws: seq<bv32>, n: int, size: nat, right: int, accepted: set<int>)
    requires size <= 32 * |ws| && Represents(ws, size, right, accepted)
    requires n <= right - size
    ensures Represents(ws, size, right, accepted + {n})
  {
  }

  lemma SlidBits(ws: seq<bv32>, after: seq<bv32>, d: nat, size: nat, right: int, n: int, accepted: set<int>)
    requires 1 <= d < size <= 32 * |ws| && n == right + d
    requires Represents(ws, size, right, accepted)
    requires forall m :: m in accepted ==> m <= right
    requires after == Slide(ws, d)[0 := SetIn(Slide(ws, d)[0], 0)]
    ensures Represents(after, size, n, accepted + {n})
  {
    hide BitAt, Slide;
    var slid := Slide(ws, d);
    forall i | 0 <= i < size ensures BitAt(after, i) <==> n - i in accepted + {n} {
      SetBitAt(slid, 0, i);
      SlideBit(ws, d, i);
    }
  }

  lemma JumpedBits(zero: seq<bv32>, after: seq<bv32>, size: nat, right: int, n: int, accepted: set<int>)
    requires 1 <= size <= 32 * |zero| && size <= n - right
    requires forall a :: 0 <= a < |zero| ==> zero[a] == 0
    requires forall m :: m in accepted ==> m <= right
    requires after == zero[0 := SetIn(zero[0], 0)]
    ensures Represents(after, size, n, accepted + {n})
  {
    hide BitAt;
    ClearedBits(zero);
    forall i | 0 <= i < size ensures BitAt(after, i) <==> n - i in accepted + {n} {
      SetBitAt(zero, 0, i);
    }
  }
}
