/**
 * The RC4 stream cipher: key schedule and keystream as functions of the state, and the in-place class that
 * computes them.
 */
module StreamCipher {
  import opened Bytes

  datatype Rc4State = Rc4State(s: bytes, i: byte, j: byte)

  type Rc4Key = st: Rc4State | |st.s| == 256 witness Rc4State(seq(256, _ => 0), 0, 0)

  function Swap(s: bytes, i: nat, j: nat): (r: bytes)
    requires i < |s| && j < |s|
    ensures |r| == |s|
  {
    s[i := s[j]][j := s[i]]
  }

  /** Addition of table indexes, modulo 256. */
  function Plus(a: int, b: int): byte {
    (a + b) % 256
  }

  // ---- The keystream ----

  function Next(st: Rc4Key): Rc4Key {
    var i := Plus(st.i, 1);
    var j := Plus(st.j, st.s[i]);
    Rc4State(Swap(st.s, i, j), i, j)
  }

  /** The keystream byte that the step into st produces. */
  function KeyByte(st: Rc4Key): byte {
    st.s[Plus(st.s[st.i], st.s[st.j])]
  }

  function After(st: Rc4Key, n: nat): Rc4Key
    decreases n
  {
    if n == 0 then st else After(Next(st), n - 1)
  }

  /** data with the next |data| keystream bytes folded in. */
  function Crypted(st: Rc4Key, data: bytes): (r: bytes)
    ensures |r| == |data|
    decreases data
  {
    if data == [] then [] else [Xor(data[0], KeyByte(Next(st)))] + Crypted(Next(st), data[1..])
  }

  lemma {:induction false} AfterSum(st: Rc4Key, m: nat, n: nat)
    ensures After(After(st, m), n) == After(st, m + n)
    decreases m
  {
    if m != 0 {
      AfterSum(Next(st), m - 1, n);
    }
  }

  /** Crypting in two parts is crypting in one go: the stream runs on. */
  lemma {:induction false} CryptedSplit(st: Rc4Key, a: bytes, b: bytes)
    ensures Crypted(st, a + b) == Crypted(st, a) + Crypted(After(st, |a|), b)
    decreases a
  {
    if a == [] {
      assert a + b == b;
    } else {
      assert (a + b)[1..] == a[1..] + b;
      CryptedSplit(Next(st), a[1..], b);
    }
  }

  /** Decryption is encryption with the same state. */
  lemma {:induction false} CryptedTwice(st: Rc4Key, data: bytes)
    ensures Crypted(st, Crypted(st, data)) == data
    decreases data
  {
    if data != [] {
      var r := Crypted(st, data);
      assert r[1..] == Crypted(Next(st), data[1..]);
      CryptedTwice(Next(st), data[1..]);
      XorUndo(data[0], KeyByte(Next(st)));
    }
  }

  // ---- The key schedule ----

  function Identity(n: nat): (r: bytes)
    requires n <= 256
    ensures |r| == n && forall k :: 0 <= k < n ==> r[k] == k
  {
    if n == 0 then [] else Identity(n - 1) + [n - 1]
  }

  /** The first n rounds of the schedule: the table and the running index. */
  function Rounds(key: bytes, n: nat): (r: (bytes, byte))
    requires key != [] && n <= 256
    ensures |r.0| == 256
  {
    if n == 0 then (Identity(256), 0)
    else
      var (s, j) := Rounds(key, n - 1);
      var j' := Plus(Plus(j, s[n - 1]), key[(n - 1) % |key|]);
      (Swap(s, n - 1, j'), j')
  }

  function Keyed(key: bytes): Rc4Key
    requires key != []
  {
    Rc4State(Rounds(key, 256).0, 0, 0)
  }

  predicate Permutation(s: bytes) {
    |s| == 256 && forall i, j :: 0 <= i < j < 256 ==> s[i] != s[j]
  }

  lemma SwapPermutation(s: bytes, i: nat, j: nat)
    requires Permutation(s) && i < 256 && j < 256
    ensures Permutation(Swap(s, i, j))
  {
  }

  lemma {:induction false} SchedulePermutation(key: bytes, n: nat)
    requires key != [] && n <= 256
    ensures Permutation(Rounds(key, n).0)
  {
    if n != 0 {
      SchedulePermutation(key, n - 1);
      var (s, j) := Rounds(key, n - 1);
      SwapPermutation(s, n - 1, Plus(Plus(j, s[n - 1]), key[(n - 1) % |key|]));
    }
  }

  /** The table is a permutation of the bytes after any key and any amount of stream. */
  lemma {:induction false} AlwaysPermutation(key: bytes, n: nat)
    requires key != []
    ensures Permutation(After(Keyed(key), n).s)
  {
    SchedulePermutation(key, 256);
    AfterPermutation(Keyed(key), n);
  }

  lemma {:induction false} AfterPermutation(st: Rc4Key, n: nat)
    requires Permutation(st.s)
    ensures Permutation(After(st, n).s)
    decreases n
  {
    if n != 0 {
      var i := Plus(st.i, 1);
      SwapPermutation(st.s, i, Plus(st.j, st.s[i]));
      AfterPermutation(Next(st), n - 1);
    }
  }

  // ---- The in-place class ----

  class Rc4 {
    const s: array<byte>
    var i: byte
    var j: byte

    ghost predicate Valid()
      reads this
    {
      s.Length == 256
    }

    function State(): Rc4Key
      requires Valid()
      reads this, s
    {
      Rc4State(s[..], i, j)
    }

    constructor ()
      ensures Valid() && fresh(s)
    {
      s := new byte[256](_ => 0);
      i, j := 0, 0;
    }

    /** init: the key schedule. */
    method Init(key: array<byte>)
      requires Valid() && key.Length != 0 && key != s
      modifies this, s
      ensures State() == Keyed(key[..])
    {
      for k := 0 to 256
        invariant forall m :: 0 <= m < k ==> s[m] == m
      {
        s[k] := k;
      }
      var idx: byte := 0;
      assert s[..] == Identity(256);
      for k := 0 to 256
        invariant (s[..], idx) == Rounds(key[..], k)
      {
        idx := Plus(Plus(idx, s[k]), key[k % key.Length]);
        s[k], s[idx] := s[idx], s[k];
      }
      i, j := 0, 0;
    }

    /** One step of the generator: the next keystream byte. */
    method Step() returns (k: byte)
      requires Valid()
      modifies this, s
      ensures State() == Next(old(State())) && k == KeyByte(State())
    {
      i := Plus(i, 1);
      j := Plus(j, s[i]);
      s[i], s[j] := s[j], s[i];
      k := s[Plus(s[i], s[j])];
    }

    /** crypt: fold the keystream into data, in place. */
    method Crypt(data: array<byte>)
      requires Valid() && data != s
      modifies this, s, data
      ensures data[..] == Crypted(old(State()), old(data[..]))
      ensures State() == After(old(State()), data.Length)
    {
      hide Next, KeyByte, Xor, Crypted;
      ghost var start, input := State(), data[..];
      CryptedNothing(start);
      for n := 0 to data.Length
        invariant State() == After(start, n)
        invariant data[..n] == Crypted(start, input[..n])
        invariant data[n..] == input[n..]
      {
        StepCrypted(start, input[..n], input[n]);
        assert input[..n + 1] == input[..n] + [input[n]];
        var k := Step();
        data[n] := Xor(data[n], k);
        assert data[..n + 1] == data[..n] + [data[n]];
      }
      assert data[..data.Length] == data[..] && input[..data.Length] == input;
    }
  }

  lemma CryptedNothing(st: Rc4Key)
    ensures Crypted(st, []) == []
  {
  }

  lemma StepCrypted(st: Rc4Key, a: bytes, x: byte)
    ensures After(st, |a| + 1) == Next(After(st, |a|))
    ensures Crypted(st, a + [x]) == Crypted(st, a) + [Xor(x, KeyByte(After(st, |a| + 1)))]
  {
    AfterSum(st, |a|, 1);
    CryptedSplit(st, a, [x]);
    var now := After(st, |a|);
    assert After(now, 1) == After(Next(now), 0) == Next(now);
    assert Crypted(now, [x]) == [Xor(x, KeyByte(Next(now)))];
  }
}
