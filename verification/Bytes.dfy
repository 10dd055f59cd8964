/** Bytes as bounded integers, and the small vocabulary the other modules share. */
module Bytes {
  type byte = x: int | 0 <= x < 256

  type bytes = seq<byte>

  datatype Option<+T> = None | Some(value: T)

  /** s with the elements from position at on overwritten by d. */
  function Splice<T>(s: seq<T>, at: nat, d: seq<T>): (r: seq<T>)
    requires at + |d| <= |s|
    ensures |r| == |s|
    ensures forall k :: 0 <= k < |s| ==> r[k] == if at <= k < at + |d| then d[k - at] else s[k]
  {
    s[..at] + d + s[at + |d|..]
  }

  // ---- Exclusive or, bit by bit ----

  function Pow2(n: nat): (r: nat)
    ensures 0 < r
  {
    if n == 0 then 1 else 2 * Pow2(n - 1)
  }

  /** The exclusive or of the n low bits of a and b. */
  function XorBits(a: nat, b: nat, n: nat): (r: nat)
    ensures r < Pow2(n)
  {
    if n == 0 then 0 else (a % 2 + b % 2) % 2 + 2 * XorBits(a / 2, b / 2, n - 1)
  }

  lemma {:induction false} XorBitsUndo(a: nat, b: nat, n: nat)
    requires a < Pow2(n)
    ensures XorBits(XorBits(a, b, n), b, n) == a
  {
    if n != 0 {
      XorBitsUndo(a / 2, b / 2, n - 1);
      XorBitsStep((a % 2 + b % 2) % 2, XorBits(a / 2, b / 2, n - 1), b, n);
      XorBit(a % 2, b % 2);
    }
  }

  lemma XorBitsStep(bit: nat, half: nat, b: nat, n: nat)
    requires bit < 2 && 0 < n
    ensures XorBits(bit + 2 * half, b, n) == (bit + b % 2) % 2 + 2 * XorBits(half, b / 2, n - 1)
  {
  }

  lemma XorBit(x: nat, y: nat)
    requires x < 2 && y < 2
    ensures ((x + y) % 2 + y) % 2 == x
  {
  }

  lemma {:induction false} XorBitsZero(a: nat, b: nat, n: nat)
    requires a < Pow2(n) && b < Pow2(n)
    ensures XorBits(a, b, n) == 0 <==> a == b
  {
    if n != 0 {
      XorBitsZero(a / 2, b / 2, n - 1);
    }
  }

  lemma Pow2Of8()
    ensures Pow2(8) == 256
  {
  }

  function Xor(a: byte, b: byte): byte {
    Pow2Of8();
    XorBits(a, b, 8)
  }

  lemma XorUndo(a: byte, b: byte)
    ensures Xor(Xor(a, b), b) == a
  {
    Pow2Of8();
    XorBitsUndo(a, b, 8);
  }

  /** Exclusive or with a fixed byte is one-to-one, and zero only against itself. */
  lemma XorInjective(a: byte, b: byte, x: byte)
    ensures Xor(a, x) == Xor(b, x) <==> a == b
    ensures Xor(a, x) == 0 <==> a == x
  {
    XorUndo(a, x);
    XorUndo(b, x);
    Pow2Of8();
    XorBitsZero(a, x, 8);
  }

  function XorAll(a: bytes, b: bytes): (r: bytes)
    requires |a| == |b|
    ensures |r| == |a| && forall k :: 0 <= k < |a| ==> r[k] == Xor(a[k], b[k])
  {
    if a == [] then [] else [Xor(a[0], b[0])] + XorAll(a[1..], b[1..])
  }

  lemma XorAllUndo(a: bytes, b: bytes)
    requires |a| == |b|
    ensures XorAll(XorAll(a, b), b) == a
  {
    var r := XorAll(XorAll(a, b), b);
    forall k | 0 <= k < |a| ensures r[k] == a[k] {
      XorUndo(a[k], b[k]);
    }
  }

  // ---- Big-endian numbers ----

  function Pow256(k: nat): (r: nat)
    ensures 0 < r
  {
    if k == 0 then 1 else 256 * Pow256(k - 1)
  }

  lemma Pow256Of4()
    ensures Pow256(4) == 0x1_0000_0000
  {
  }

  lemma {:induction false} Pow256Sum(m: nat, n: nat)
    ensures Pow256(m + n) == Pow256(m) * Pow256(n)
  {
    if m != 0 {
      Pow256Sum(m - 1, n);
      calc {
        Pow256(m + n);
        256 * (Pow256(m - 1) * Pow256(n));
        (256 * Pow256(m - 1)) * Pow256(n);
        Pow256(m) * Pow256(n);
      }
    }
  }

  /** n as k bytes, most significant first. */
  function ToBE(n: nat, k: nat): (r: bytes)
    ensures |r| == k
  {
    if k == 0 then [] else ToBE(n / 256, k - 1) + [n % 256]
  }

  function FromBE(b: bytes): nat {
    if b == [] then 0 else FromBE(b[..|b| - 1]) * 256 + b[|b| - 1]
  }

  lemma QuotientBelow(n: nat, k: nat)
    requires 0 < k && n < Pow256(k)
    ensures n / 256 < Pow256(k - 1)
  {
  }

  lemma {:induction false} BigEndianRoundTrip(n: nat, k: nat)
    requires n < Pow256(k)
    ensures FromBE(ToBE(n, k)) == n
  {
    if k != 0 {
      hide Pow256;
      QuotientBelow(n, k);
      BigEndianRoundTrip(n / 256, k - 1);
      var b := ToBE(n, k);
      assert b[..k - 1] == ToBE(n / 256, k - 1);
    }
  }

  lemma {:induction false} BigEndianBound(b: bytes)
    ensures FromBE(b) < Pow256(|b|)
  {
    if b != [] {
      BigEndianBound(b[..|b| - 1]);
    }
  }

  lemma {:induction false} BigEndianInverse(b: bytes)
    ensures ToBE(FromBE(b), |b|) == b
  {
    if b != [] {
      var init := b[..|b| - 1];
      BigEndianInverse(init);
      assert FromBE(b) / 256 == FromBE(init) && FromBE(b) % 256 == b[|b| - 1];
      assert b == init + [b[|b| - 1]];
    }
  }
}
