/** Runs of bits, as held by the status flag set and emitted by the bit
    writer. A bit run maps onto bytes least significant bit first: bit `k`
    of a run is bit `k mod 8` of byte `k div 8`. */
module Bits {
  import opened Bytes

  function Pow2(k: nat): (p: nat)
    ensures p > 0
  {
    if k == 0 then 1 else 2 * Pow2(k - 1)
  }

  /** True when bit `k` (0 = least significant) of `x` is one. */
  predicate IsBitSet(x: nat, k: nat)
  {
    (x / Pow2(k)) % 2 == 1
  }

  /** The number whose binary digits, least significant first, are `bits`. */
  function FromBits(bits: seq<bool>): nat
  {
    if |bits| == 0 then 0 else (if bits[0] then 1 else 0) + 2 * FromBits(bits[1..])
  }

  /** The `n` low bits of `x`, least significant first. */
  function ToBits(x: nat, n: nat): (bits: seq<bool>)
    ensures |bits| == n
  {
    if n == 0 then [] else [x % 2 == 1] + ToBits(x / 2, n - 1)
  }

  function BitValue(b: bool): nat
  {
    if b then 1 else 0
  }

  /** Replacing bit `k` changes the number by that bit's weight, up or
      down, and by nothing else. */
  lemma {:induction false} FromBitsUpdate(bits: seq<bool>, k: nat, v: bool)
    requires k < |bits|
    ensures FromBits(bits[k := v]) == FromBits(bits) + (BitValue(v) - BitValue(bits[k])) * Pow2(k)
  {
    var updated := bits[k := v];
    if k == 0 {
      assert updated[1..] == bits[1..];
    } else {
      assert updated[0] == bits[0];
      assert updated[1..] == bits[1..][k - 1 := v];
      FromBitsUpdate(bits[1..], k - 1, v);
      assert bits[1..][k - 1] == bits[k];
    }
  }

  lemma {:induction false} FromBitsBound(bits: seq<bool>)
    ensures FromBits(bits) < Pow2(|bits|)
  {
    if |bits| > 0 {
      FromBitsBound(bits[1..]);
    }
  }

  lemma {:induction false} FromBitsOfToBits(x: nat, n: nat)
    requires x < Pow2(n)
    ensures FromBits(ToBits(x, n)) == x
  {
    if n > 0 {
      FromBitsOfToBits(x / 2, n - 1);
      assert ToBits(x, n)[1..] == ToBits(x / 2, n - 1);
    }
  }

  lemma {:induction false} ToBitsOfFromBits(bits: seq<bool>)
    ensures ToBits(FromBits(bits), |bits|) == bits
  {
    if |bits| > 0 {
      ToBitsOfFromBits(bits[1..]);
      var v := FromBits(bits);
      assert v % 2 == 1 <==> bits[0];
      assert v / 2 == FromBits(bits[1..]);
    }
  }

  lemma MulAtLeast(d: int, m: int)
    requires d > 0 && m >= 1
    ensures d * m >= d
  {
  }

  lemma DivUnique(x: int, d: int, q: int, r: int)
    requires d > 0 && 0 <= r < d && x == d * q + r
    ensures x / d == q
  {
    var q', r' := x / d, x % d;
    assert x == d * q' + r';
    if q > q' {
      MulAtLeast(d, q - q');
      assert false;
    } else if q < q' {
      MulAtLeast(d, q' - q);
      assert false;
    }
  }

  lemma HalfThenDivide(x: nat, p: nat)
    requires p > 0
    ensures (x / 2) / p == x / (2 * p)
  {
    var q, r0 := x / 2, x % 2;
    var q2, r1 := q / p, q % p;
    assert x == (2 * p) * q2 + (2 * r1 + r0);
    DivUnique(x, 2 * p, q2, 2 * r1 + r0);
  }

  /** Position `k` of `ToBits(x, n)` is bit `k` of `x`. */
  lemma {:induction false} ToBitsIndex(x: nat, n: nat, k: nat)
    requires k < n
    ensures ToBits(x, n)[k] <==> IsBitSet(x, k)
  {
    if k > 0 {
      ToBitsIndex(x / 2, n - 1, k - 1);
      HalfThenDivide(x, Pow2(k - 1));
    }
  }

  /** The byte-aligned output of the bit writer: each group of eight bits
      becomes one byte, first bit in the least significant position. */
  function PackBits(bits: seq<bool>): (bytes: seq<byte>)
    requires |bits| % 8 == 0
    ensures |bytes| == |bits| / 8
    ensures forall i, k :: 0 <= i < |bytes| && 0 <= k < 8 ==>
              (bits[8 * i + k] <==> IsBitSet(bytes[i], k))
  {
    if |bits| == 0 then []
    else
      var b := bits[..8];
      FromBitsBound(b);
      ToBitsOfFromBits(b);
      var rest := PackBits(bits[8..]);
      var bytes := [FromBits(b)] + rest;
      assert forall i, k :: 0 <= i < |bytes| && 0 <= k < 8 ==>
               (bits[8 * i + k] <==> IsBitSet(bytes[i], k)) by {
        forall i, k | 0 <= i < |bytes| && 0 <= k < 8
          ensures bits[8 * i + k] <==> IsBitSet(bytes[i], k)
        {
          if i == 0 {
            ToBitsIndex(FromBits(b), 8, k);
          } else {
            assert bits[8 * i + k] == bits[8..][8 * (i - 1) + k];
          }
        }
      }
      bytes
  }
}
