/** Bitfields: one bit a piece, the most significant bit of each byte first. */
module Bitfield {
  import opened Bytes

  /** Bit a of x, the least significant being bit 0. */
  predicate BitAt(x: nat, a: nat) {
    if a == 0 then x % 2 == 1 else BitAt(x / 2, a - 1)
  }

  predicate HasBit(bits: bytes, i: nat)
    requires i / 8 < |bits|
  {
    BitAt(bits[i / 8], 7 - i % 8)
  }

  lemma {:induction false} Room(x: nat, a: nat, n: nat)
    requires a < n && x < Pow2(n) && !BitAt(x, a)
    ensures x + Pow2(a) < Pow2(n)
  {
    if a != 0 {
      Room(x / 2, a - 1, n - 1);
    }
  }

  /** Adding 2^a where bit a is clear sets bit a and changes no other. */
  lemma {:induction false} AddBit(x: nat, a: nat, b: nat)
    requires !BitAt(x, a)
    ensures BitAt(x + Pow2(a), b) <==> a == b || BitAt(x, b)
  {
    if a == 0 {
      assert (x + 1) / 2 == x / 2;
    } else {
      assert (x + Pow2(a)) / 2 == x / 2 + Pow2(a - 1);
      if b != 0 {
        AddBit(x / 2, a - 1, b - 1);
      }
    }
  }

  /** x | (1 << a) on an 8-bit number */
  function SetBit(x: byte, a: nat): (r: byte)
    requires a < 8
    ensures BitAt(r, a)
    ensures forall b :: 0 <= b && b != a ==> (BitAt(r, b) <==> BitAt(x, b))
  {
    Pow2Of8();
    if BitAt(x, a) then x
    else
      Room(x, a, 8);
      assert forall b: nat :: BitAt(x + Pow2(a), b) <==> a == b || BitAt(x, b) by {
        forall b: nat ensures BitAt(x + Pow2(a), b) <==> a == b || BitAt(x, b) {
          AddBit(x, a, b);
        }
      }
      var r: int := x + Pow2(a);
      r
  }

  /** The bitfield of a list of flags, set bit by bit. */
  method FromFlags(flags: seq<bool>) returns (bits: bytes)
    ensures |bits| == (|flags| + 7) / 8
    ensures forall i :: 0 <= i < |flags| ==> (HasBit(bits, i) <==> flags[i])
  {
    bits := seq((|flags| + 7) / 8, _ => 0);
    forall i | 0 <= i < 8 * |bits| ensures !HasBit(bits, i) {
      NoBit(7 - i % 8);
    }
    for k := 0 to |flags|
      invariant |bits| == (|flags| + 7) / 8
      invariant forall i :: 0 <= i < |flags| ==> (HasBit(bits, i) <==> i < k && flags[i])
    {
      if flags[k] {
        ghost var was := bits;
        bits := bits[k / 8 := SetBit(bits[k / 8], 7 - k % 8)];
        forall i | 0 <= i < |flags| ensures HasBit(bits, i) <==> i == k || HasBit(was, i) {
          SameBit(i, k);
        }
      }
    }
  }

  lemma {:induction false} NoBit(a: nat)
    ensures !BitAt(0, a)
  {
    if a != 0 {
      NoBit(a - 1);
    }
  }

  lemma SameBit(i: nat, k: nat)
    ensures i == k <==> i / 8 == k / 8 && 7 - i % 8 == 7 - k % 8
  {
  }
}
