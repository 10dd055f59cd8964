/** Node identifiers, the XOR metric and the bucket an identifier belongs to. */
module NodeId {
  import opened Arith
  import opened Bytes

  const ID_BYTES: nat := 20
  const ID_BITS: nat := 160

  type Id = b: bytes | |b| == 20 witness [0, 0, 0, 0, 0, 0, 0, 0, 0, 0, 0, 0, 0, 0, 0, 0, 0, 0, 0, 0]

  function Distance(a: Id, b: Id): Id {
    XorAll(a, b)
  }

  /** The distance as a number, most significant byte first. */
  function Dist(a: Id, b: Id): nat {
    FromBE(Distance(a, b))
  }

  // ---- The order of distances ----

  /** The order of byte arrays. */
  predicate LexLess(a: bytes, b: bytes)
    requires |a| == |b|
  {
    a != [] && (a[0] < b[0] || (a[0] == b[0] && LexLess(a[1..], b[1..])))
  }

  lemma {:induction false} FromBEFront(b: bytes)
    requires b != []
    ensures FromBE(b) == b[0] * Pow256(|b| - 1) + FromBE(b[1..])
  {
    if |b| == 1 {
      assert b[..0] == [] && b[1..] == [];
    } else {
      var init, last := b[..|b| - 1], b[|b| - 1];
      FromBEFront(init);
      assert init[1..] == b[1..][..|b| - 2] && b[1..][|b| - 2] == last;
      var x, p, r := b[0], Pow256(|b| - 2), FromBE(init[1..]);
      assert FromBE(b) == (x * p + r) * 256 + last;
      ScaleUp(x, p, r);
    }
  }

  lemma ScaleUp(x: nat, p: nat, r: nat)
    ensures (x * p + r) * 256 == x * (256 * p) + r * 256
  {
  }

  /** Comparing distances byte by byte is comparing them as numbers. */
  lemma {:induction false} LexIsNumeric(a: bytes, b: bytes)
    requires |a| == |b|
    ensures LexLess(a, b) <==> FromBE(a) < FromBE(b)
  {
    if a != [] {
      LexIsNumeric(a[1..], b[1..]);
      FromBEFront(a);
      FromBEFront(b);
      BigEndianBound(a[1..]);
      BigEndianBound(b[1..]);
      LeadingDigit(a[0], FromBE(a[1..]), b[0], FromBE(b[1..]), Pow256(|a| - 1));
    }
  }

  lemma LeadingDigit(x: nat, r: nat, y: nat, s: nat, p: nat)
    requires r < p && s < p
    ensures x * p + r < y * p + s <==> x < y || (x == y && r < s)
  {
    if x < y {
      MulMono(x + 1, y, p);
      Distribute(x, 1, p);
    } else if y < x {
      MulMono(y + 1, x, p);
      Distribute(y, 1, p);
    }
  }

  /** No two identifiers are at the same distance from a target, and only the target itself is at distance zero. */
  lemma DistInjective(a: Id, b: Id, t: Id)
    ensures Dist(a, t) == Dist(b, t) <==> a == b
    ensures Dist(a, t) == 0 <==> a == t
  {
    BigEndianInverse(Distance(a, t));
    BigEndianInverse(Distance(b, t));
    if Distance(a, t) == Distance(b, t) {
      forall k | 0 <= k < 20 ensures a[k] == b[k] {
        assert Distance(a, t)[k] == Distance(b, t)[k];
        XorInjective(a[k], b[k], t[k]);
      }
    }
    DistZero(a, t);
  }

  lemma DistZero(a: Id, t: Id)
    ensures Dist(a, t) == 0 <==> a == t
  {
    var d := Distance(a, t);
    if a == t {
      forall k | 0 <= k < 20 ensures d[k] == 0 {
        XorInjective(a[k], a[k], t[k]);
      }
      AllZero(d);
    } else {
      var k :| 0 <= k < 20 && a[k] != t[k];
      XorInjective(a[k], a[k], t[k]);
      SomeNonzero(d, k);
    }
  }

  lemma {:induction false} AllZero(d: bytes)
    requires forall k :: 0 <= k < |d| ==> d[k] == 0
    ensures FromBE(d) == 0
  {
    if d != [] {
      AllZero(d[..|d| - 1]);
    }
  }

  lemma {:induction false} SomeNonzero(d: bytes, k: nat)
    requires k < |d| && d[k] != 0
    ensures FromBE(d) != 0
  {
    if k < |d| - 1 {
      SomeNonzero(d[..|d| - 1], k);
    }
  }

  // ---- Buckets ----

  /** std::countl_zero of an 8-bit number. */
  function LeadingZeros(x: byte): nat {
    if x >= 128 then 0
    else if x >= 64 then 1
    else if x >= 32 then 2
    else if x >= 16 then 3
    else if x >= 8 then 4
    else if x >= 4 then 5
    else if x >= 2 then 6
    else if x >= 1 then 7
    else 8
  }

  /** The number of leading zero bits of d, and the last bucket if d is zero. */
  function PrefixLength(d: bytes, i: nat): nat
    requires i <= |d| && |d| == 20
    decreases |d| - i
  {
    if i == |d| then ID_BITS - 1
    else if d[i] != 0 then i * 8 + LeadingZeros(d[i])
    else PrefixLength(d, i + 1)
  }

  function BucketIndex(me: Id, other: Id): nat {
    PrefixLength(Distance(me, other), 0)
  }

  /** get_bucket_index */
  method GetBucketIndex(me: Id, other: Id) returns (r: nat)
    ensures r == BucketIndex(me, other)
  {
    var d := Distance(me, other);
    for i := 0 to ID_BYTES
      invariant PrefixLength(d, i) == PrefixLength(d, 0)
    {
      if d[i] != 0 {
        return i * 8 + LeadingZeros(d[i]);
      }
    }
    return ID_BYTES * 8 - 1;
  }

  lemma {:induction false} Pow2Sum(m: nat, n: nat)
    ensures Pow2(m + n) == Pow2(m) * Pow2(n)
  {
    if m != 0 {
      Pow2Sum(m - 1, n);
      Assoc(2, Pow2(m - 1), Pow2(n));
    }
  }

  lemma {:induction false} Pow256IsPow2(k: nat)
    ensures Pow256(k) == Pow2(8 * k)
  {
    if k != 0 {
      Pow256IsPow2(k - 1);
      Pow2Sum(8, 8 * (k - 1));
      Pow2Of8();
    }
  }

  lemma LeadingZerosRange(x: byte)
    requires x != 0
    ensures LeadingZeros(x) <= 7
    ensures Pow2(7 - LeadingZeros(x)) <= x < Pow2(8 - LeadingZeros(x))
  {
    Pow2Of8();
    assert Pow2(1) == 2 && Pow2(2) == 4 && Pow2(3) == 8 && Pow2(4) == 16;
    assert Pow2(5) == 32 && Pow2(6) == 64 && Pow2(7) == 128;
  }

  /** The bits of d, read from byte i on, when all bytes before are zero. */
  lemma {:induction false} PrefixRange(d: bytes, i: nat)
    requires |d| == 20 && i <= 20 && exists k :: i <= k < 20 && d[k] != 0
    ensures 8 * i <= PrefixLength(d, i) < ID_BITS
    ensures Pow2(159 - PrefixLength(d, i)) <= FromBE(d[i..]) < Pow2(160 - PrefixLength(d, i))
    decreases 20 - i
  {
    hide LeadingZeros, FromBE, Pow2, Pow256;
    FromBEFront(d[i..]);
    assert d[i..][1..] == d[i + 1..];
    if d[i] == 0 {
      PrefixRange(d, i + 1);
    } else {
      LeadingZerosRange(d[i]);
      BigEndianBound(d[i + 1..]);
      FirstByteDecides(d[i], LeadingZeros(d[i]), FromBE(d[i + 1..]), 19 - i);
    }
  }

  lemma FirstByteDecides(x: nat, c: nat, r: nat, n: nat)
    requires c <= 7 && Pow2(7 - c) <= x < Pow2(8 - c) && r < Pow256(n)
    ensures Pow2(7 - c + 8 * n) <= x * Pow256(n) + r < Pow2(8 - c + 8 * n)
  {
    hide Pow2, Pow256;
    var p := Pow256(n);
    Pow256IsPow2(n);
    Pow2Sum(7 - c, 8 * n);
    Pow2Sum(8 - c, 8 * n);
    MulMono(Pow2(7 - c), x, p);
    MulMono(x + 1, Pow2(8 - c), p);
    Distribute(x, 1, p);
  }

  /** Bucket i holds exactly the identifiers whose distance has its highest bit at position 159 - i. */
  lemma BucketRange(me: Id, other: Id)
    requires me != other
    ensures BucketIndex(me, other) < ID_BITS
    ensures Pow2(159 - BucketIndex(me, other)) <= Dist(me, other) < Pow2(160 - BucketIndex(me, other))
  {
    var d := Distance(me, other);
    var k :| 0 <= k < 20 && me[k] != other[k];
    XorInjective(me[k], me[k], other[k]);
    assert d[k] != 0;
    PrefixRange(d, 0);
    assert d[0..] == d;
  }

  lemma {:induction false} PrefixBounded(d: bytes, i: nat)
    requires |d| == 20 && i <= 20
    ensures PrefixLength(d, i) < ID_BITS
    decreases 20 - i
  {
    if i < 20 && d[i] == 0 {
      PrefixBounded(d, i + 1);
    }
  }
}
