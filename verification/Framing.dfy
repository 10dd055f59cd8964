/**
 * Length-prefixed framing over an optionally encrypted byte stream: what a sender puts on the wire and what a
 * receiver makes of it, as functions of the whole stream.
 */
module Framing {
  import opened Bytes
  import opened StreamCipher

  const MAX_MESSAGE_SIZE: nat := 10 * 1024 * 1024

  /** One direction of a connection: in the clear, or an RC4 stream in some state. */
  datatype Cipher = Clear | Keyed(st: Rc4Key)

  function Crypt(c: Cipher, d: bytes): (r: bytes)
    ensures |r| == |d|
  {
    if c.Clear? then d else Crypted(c.st, d)
  }

  function Advance(c: Cipher, n: nat): Cipher {
    if c.Clear? then Clear else Keyed(After(c.st, n))
  }

  lemma CryptSplit(c: Cipher, a: bytes, b: bytes)
    ensures Crypt(c, a + b) == Crypt(c, a) + Crypt(Advance(c, |a|), b)
  {
    if c.Keyed? {
      CryptedSplit(c.st, a, b);
    }
  }

  lemma CryptTwice(c: Cipher, d: bytes)
    ensures Crypt(c, Crypt(c, d)) == d
  {
    if c.Keyed? {
      CryptedTwice(c.st, d);
    }
  }

  lemma AdvanceSum(c: Cipher, m: nat, n: nat)
    ensures Advance(Advance(c, m), n) == Advance(c, m + n)
  {
    if c.Keyed? {
      AfterSum(c.st, m, n);
    }
  }

  lemma AdvanceZero(c: Cipher)
    ensures Advance(c, 0) == c
  {
  }

  // ---- Sending ----

  /** send_message: a four-byte length and the message; the empty message is the keep-alive. */
  function Frame(m: bytes): (r: bytes)
    ensures |r| == 4 + |m|
  {
    ToBE(|m|, 4) + m
  }

  function Frames(ms: seq<bytes>): bytes {
    if ms == [] then [] else Frame(ms[0]) + Frames(ms[1..])
  }

  lemma {:induction false} FramesSnoc(ms: seq<bytes>, m: bytes)
    ensures Frames(ms + [m]) == Frames(ms) + Frame(m)
  {
    if ms == [] {
      assert (ms + [m])[1..] == [];
    } else {
      assert (ms + [m])[1..] == ms[1..] + [m];
      FramesSnoc(ms[1..], m);
    }
  }

  // ---- Receiving ----

  datatype Received = Message(m: bytes) | TooBig | Eof

  /** receive_message on the unread stream u: the outcome and how many bytes it takes. */
  function Receive(u: bytes, c: Cipher): (r: (Received, nat))
    ensures r.1 <= |u|
    ensures r.0.Message? ==> 0 < r.1
  {
    if |u| < 4 then (Eof, 0)
    else
      var len := FromBE(Crypt(c, u[..4]));
      if len > MAX_MESSAGE_SIZE then (TooBig, 4)
      else if |u| - 4 < len then (Eof, 4)
      else (Message(Crypt(Advance(c, 4), u[4..4 + len])), 4 + len)
  }

  /** The message loop: all messages until the stream ends or is refused. */
  function ReceiveAll(u: bytes, c: Cipher): (r: (seq<bytes>, Received))
    decreases |u|
  {
    var (first, n) := Receive(u, c);
    if first.Message? then
      var (ms, end) := ReceiveAll(u[n..], Advance(c, n));
      ([first.m] + ms, end)
    else
      ([], first)
  }

  /** The encrypted length prefix of m, whatever follows it. */
  lemma PrefixLength(m: bytes, x: bytes, c: Cipher)
    requires |m| < 0x1_0000_0000 && 4 <= |x| && ToBE(|m|, 4) <= x
    ensures FromBE(Crypt(c, Crypt(c, x)[..4])) == |m|
  {
    hide Crypt, Advance;
    Pow256Of4();
    var head, tail := x[..4], x[4..];
    assert x == head + tail && head == ToBE(|m|, 4);
    CryptSplit(c, head, tail);
    assert Crypt(c, x)[..4] == Crypt(c, head);
    CryptTwice(c, head);
    BigEndianRoundTrip(|m|, 4);
  }

  /** A whole frame on the wire is received as the message it carries, keep-alives included. */
  lemma ReceiveFrame(m: bytes, tail: bytes, c: Cipher)
    requires |m| <= MAX_MESSAGE_SIZE
    ensures Receive(Crypt(c, Frame(m) + tail), c) == (Message(m), |Frame(m)|)
    ensures Crypt(c, Frame(m) + tail)[|Frame(m)|..] == Crypt(Advance(c, |Frame(m)|), tail)
  {
    hide Crypt, Advance, FromBE, ToBE;
    var x, head := Frame(m) + tail, ToBE(|m|, 4);
    var u, c4 := Crypt(c, x), Advance(c, 4);
    PrefixLength(m, x, c);
    assert x == head + (m + tail);
    CryptSplit(c, head, m + tail);
    CryptSplit(c4, m, tail);
    assert u[4..4 + |m|] == Crypt(c4, m);
    CryptTwice(c4, m);
    CryptSplit(c, Frame(m), tail);
  }

  /** A frame over the size limit is refused. */
  lemma RefuseFrame(m: bytes, tail: bytes, c: Cipher)
    requires MAX_MESSAGE_SIZE < |m| < 0x1_0000_0000
    ensures Receive(Crypt(c, Frame(m) + tail), c) == (TooBig, 4)
  {
    PrefixLength(m, Frame(m) + tail, c);
  }

  /** The messages before the first oversized one. */
  function Accepted(ms: seq<bytes>): seq<bytes> {
    if ms == [] || |ms[0]| > MAX_MESSAGE_SIZE then [] else [ms[0]] + Accepted(ms[1..])
  }

  predicate AllFit(ms: seq<bytes>) {
    forall k :: 0 <= k < |ms| ==> |ms[k]| <= MAX_MESSAGE_SIZE
  }

  lemma {:induction false} AcceptedAll(ms: seq<bytes>)
    ensures Accepted(ms) <= ms
    ensures Accepted(ms) == ms <==> AllFit(ms)
  {
    if ms != [] && |ms[0]| <= MAX_MESSAGE_SIZE {
      AcceptedAll(ms[1..]);
      assert ms == [ms[0]] + ms[1..];
    }
  }

  /** The unfinished part of a frame: not enough for a message. */
  lemma PartialFrame(m: bytes, part: bytes, c: Cipher)
    requires |m| <= MAX_MESSAGE_SIZE && part <= Frame(m) && |part| < |Frame(m)|
    ensures ReceiveAll(Crypt(c, part), c) == ([], Eof)
  {
    if 4 <= |part| {
      assert part[..4] == Frame(m)[..4] == ToBE(|m|, 4);
      PrefixLength(m, part, c);
    }
  }

  /**
   * Whatever was framed and encrypted is received as it was sent: every message up to the first one over the
   * limit, and an end of stream exactly when there is none.
   */
  lemma {:induction false} ReceiveSent(ms: seq<bytes>, m: bytes, part: bytes, c: Cipher)
    requires forall k :: 0 <= k < |ms| ==> |ms[k]| < 0x1_0000_0000
    requires |m| <= MAX_MESSAGE_SIZE && part <= Frame(m) && |part| < |Frame(m)|
    ensures ReceiveAll(Crypt(c, Frames(ms) + part), c) == (Accepted(ms), if AllFit(ms) then Eof else TooBig)
    decreases |ms|
  {
    hide Crypt, Advance, Frame, FromBE, ToBE, Receive;
    if ms == [] {
      assert Frames(ms) + part == part;
      PartialFrame(m, part, c);
    } else {
      var first, rest := ms[0], Frames(ms[1..]) + part;
      assert Frames(ms) + part == Frame(first) + rest;
      if |first| <= MAX_MESSAGE_SIZE {
        ReceiveFrame(first, rest, c);
        ReceiveSent(ms[1..], m, part, Advance(c, |Frame(first)|));
        assert AllFit(ms) <==> AllFit(ms[1..]) by {
          assert ms == [first] + ms[1..];
        }
      } else {
        RefuseFrame(first, rest, c);
      }
    }
  }

  /** An unfinished oversized frame adds nothing to what is received before it. */
  lemma {:induction false} ReceivePrefix(ms: seq<bytes>, m: bytes, part: bytes, c: Cipher)
    requires forall k :: 0 <= k < |ms| ==> |ms[k]| < 0x1_0000_0000
    requires MAX_MESSAGE_SIZE < |m| < 0x1_0000_0000 && part <= Frame(m)
    ensures ReceiveAll(Crypt(c, Frames(ms) + part), c).0 == Accepted(ms)
    decreases |ms|
  {
    hide Crypt, Advance, Frame, FromBE, ToBE, Receive;
    if ms == [] {
      assert Frames(ms) + part == part;
      PartialOversized(m, part, c);
    } else {
      var first, rest := ms[0], Frames(ms[1..]) + part;
      assert Frames(ms) + part == Frame(first) + rest;
      if |first| <= MAX_MESSAGE_SIZE {
        ReceiveFrame(first, rest, c);
        ReceivePrefix(ms[1..], m, part, Advance(c, |Frame(first)|));
      } else {
        RefuseFrame(first, rest, c);
      }
    }
  }

  lemma PartialOversized(m: bytes, part: bytes, c: Cipher)
    requires MAX_MESSAGE_SIZE < |m| < 0x1_0000_0000 && part <= Frame(m)
    ensures ReceiveAll(Crypt(c, part), c).0 == []
  {
    if 4 <= |part| {
      assert part[..4] == Frame(m)[..4] == ToBE(|m|, 4);
      PrefixLength(m, part, c);
    }
  }
}
