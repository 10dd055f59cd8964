/**
 * The socket: buffered reads that arrive in arbitrary chunks, framed messages, and the two negotiation
 * coroutines. `incoming` is everything the peer will ever send and the socket has not delivered yet; how it is
 * cut into chunks is left open, so every contract holds for every chunking.
 */
module AsyncSocketModel {
  import opened Bytes
  import opened StreamCipher
  import opened Framing
  import opened Mse

  const CHUNK: nat := 4096
  const COMPACT_AT: nat := 65536

  /** std::search: the first occurrence of the pattern, if any. */
  method Search(pattern: bytes, s: bytes) returns (r: Option<nat>)
    ensures r.Some? ==> OccursAt(pattern, s, r.value) && forall j: nat :: j < r.value ==> !OccursAt(pattern, s, j)
    ensures r.None? ==> forall j: nat :: !OccursAt(pattern, s, j)
  {
    var k := 0;
    while k + |pattern| <= |s|
      invariant forall j: nat :: j < k ==> !OccursAt(pattern, s, j)
    {
      if s[k..k + |pattern|] == pattern {
        return Some(k);
      }
      k := k + 1;
    }
    return None;
  }

  lemma OccursInPrefix(pattern: bytes, s: bytes, n: nat, k: nat)
    requires n <= |s|
    ensures OccursAt(pattern, s[..n], k) <==> OccursAt(pattern, s, k) && k + |pattern| <= n
  {
  }

  class AsyncSocket {
    var readBuf: bytes
    var readPos: nat
    var incoming: bytes
    var wire: bytes
    var crypto: Option<Crypto>
    var active: bool

    ghost predicate Valid()
      reads this
    {
      readPos <= |readBuf| && (active ==> crypto.Some?)
    }

    /** The bytes not yet consumed, whether buffered or still to arrive. */
    ghost function Unread(): bytes
      requires Valid()
      reads this
    {
      readBuf[readPos..] + incoming
    }

    predicate Encrypting()
      reads this
    {
      active && crypto.Some? && crypto.value.rc4
    }

    function InCipher(): Cipher
      reads this
    {
      if Encrypting() then Keyed(crypto.value.decrypt) else Clear
    }

    function OutCipher(): Cipher
      reads this
    {
      if Encrypting() then Keyed(crypto.value.encrypt) else Clear
    }

    /**
     * fill_buffer: read chunks until `need` bytes are buffered, now and then dropping the consumed prefix. It
     * fails only at the end of the stream, and neither reading nor compaction changes what is unread.
     */
    method FillBuffer(need: nat) returns (ok: bool)
      requires Valid()
      modifies this`readBuf, this`readPos, this`incoming
      ensures Valid() && Unread() == old(Unread())
      ensures ok <==> need <= |old(Unread())|
      ensures ok ==> readPos + need <= |readBuf|
      ensures |readBuf| - readPos <= old(|readBuf| - readPos) || |readBuf| - readPos < need + CHUNK
    {
      while |readBuf| - readPos < need
        invariant Valid() && Unread() == old(Unread())
        invariant |readBuf| - readPos <= old(|readBuf| - readPos) || |readBuf| - readPos < need + CHUNK
        decreases |incoming|
      {
        if incoming == [] {
          return false;
        }
        var got :| 1 <= got <= |incoming| && got <= CHUNK;
        Delivered(readBuf, readPos, incoming, got);
        readBuf := readBuf + incoming[..got];
        incoming := incoming[got..];
        if readPos >= COMPACT_AT {
          readBuf, readPos := readBuf[readPos..], 0;
        }
      }
      return true;
    }

    /** consume_bytes */
    method ConsumeBytes(n: nat) returns (out: bytes)
      requires Valid() && readPos + n <= |readBuf|
      modifies this`readPos
      ensures Valid() && n <= |old(Unread())|
      ensures out == old(Unread())[..n] && Unread() == old(Unread())[n..]
    {
      out := readBuf[readPos..readPos + n];
      assert readBuf[readPos..] == out + readBuf[readPos + n..];
      readPos := readPos + n;
    }

    /** decrypt_incoming */
    method DecryptIncoming(data: bytes) returns (out: bytes)
      requires Valid()
      modifies this`crypto
      ensures Valid() && out == Crypt(old(InCipher()), data) && InCipher() == Advance(old(InCipher()), |data|)
      ensures OutCipher() == old(OutCipher())
    {
      out := data;
      if Encrypting() {
        out := Crypted(crypto.value.decrypt, data);
        crypto := Some(crypto.value.(decrypt := After(crypto.value.decrypt, |data|)));
      }
    }

    /** receive_message, on any chunking of the stream. */
    method ReceiveMessage() returns (r: Received)
      requires Valid()
      modifies this
      ensures Valid() && wire == old(wire) && OutCipher() == old(OutCipher())
      ensures var (outcome, taken) := Receive(old(Unread()), old(InCipher()));
              && r == outcome
              && Unread() == old(Unread())[taken..]
              && InCipher() == Advance(old(InCipher()), taken)
    {
      hide Crypt, Advance, FromBE;
      ghost var u, c := Unread(), InCipher();
      AdvanceZero(c);
      var ok := FillBuffer(4);
      if !ok {
        return Eof;
      }
      var lenBytes := ConsumeBytes(4);
      lenBytes := DecryptIncoming(lenBytes);
      var length := FromBE(lenBytes);
      if length > MAX_MESSAGE_SIZE {
        return TooBig;
      }
      AdvanceSum(c, 4, length);
      if length == 0 {
        NothingCrypted(Advance(c, 4), u);
        return Message([]);
      }
      ok := FillBuffer(length);
      if !ok {
        return Eof;
      }
      assert u[4..][..length] == u[4..4 + length] && u[4..][length..] == u[4 + length..];
      var buffer := ConsumeBytes(length);
      buffer := DecryptIncoming(buffer);
      return Message(buffer);
    }

    /** The receiving half of message_loop: read until the stream ends or is refused. */
    method ReceiveMessages() returns (ms: seq<bytes>, end: Received)
      requires Valid()
      modifies this
      ensures Valid() && (ms, end) == ReceiveAll(old(Unread()), old(InCipher()))
    {
      hide Crypt, Advance, Receive, ReceiveAll;
      ghost var whole := ReceiveAll(Unread(), InCipher());
      ms := [];
      ReceiveAllStep(Unread(), InCipher());
      var r := ReceiveMessage();
      while r.Message?
        invariant Valid()
        invariant r.Message? ==>
                    && whole.0 == ms + ([r.m] + ReceiveAll(Unread(), InCipher()).0)
                    && whole.1 == ReceiveAll(Unread(), InCipher()).1
        invariant !r.Message? ==> whole.0 == ms && whole.1 == r
        decreases |Unread()|, if r.Message? then 1 else 0
      {
        ms := ms + [r.m];
        assert whole.0 == ms + ReceiveAll(Unread(), InCipher()).0;
        ReceiveAllStep(Unread(), InCipher());
        r := ReceiveMessage();
      }
      end := r;
    }

    /** send_raw: one frame through the drain, encrypted if the negotiation is over and chose RC4. */
    method SendRaw(data: bytes)
      requires Valid()
      modifies this`wire, this`crypto
      ensures Valid() && wire == old(wire) + Crypt(old(OutCipher()), data)
      ensures OutCipher() == Advance(old(OutCipher()), |data|) && InCipher() == old(InCipher())
      ensures !old(Encrypting()) ==> crypto == old(crypto)
    {
      if Encrypting() {
        wire := wire + Crypted(crypto.value.encrypt, data);
        crypto := Some(crypto.value.(encrypt := After(crypto.value.encrypt, |data|)));
      } else {
        wire := wire + data;
      }
    }

    /**
     * The scan loop of both negotiations: look for the pattern in what is buffered, and read at least one more
     * byte as long as fewer than `limit` are there.
     */
    method Scan(pattern: bytes, limit: nat) returns (off: Option<nat>)
      requires Valid()
      modifies this`readBuf, this`readPos, this`incoming
      ensures Valid() && Unread() == old(Unread())
      ensures ScanResult(pattern, old(Unread()), limit, off)
      ensures off.Some? ==> readPos + off.value + |pattern| <= |readBuf|
      ensures |readBuf| - readPos <= old(|readBuf| - readPos) || |readBuf| - readPos < limit + CHUNK
    {
      hide OccursAt;
      ghost var u := Unread();
      while true
        invariant Valid() && Unread() == u
        invariant |readBuf| - readPos <= old(|readBuf| - readPos) || |readBuf| - readPos < limit + CHUNK
        decreases |u| - (|readBuf| - readPos)
      {
        ghost var n := |readBuf| - readPos;
        assert readBuf[readPos..] == u[..n];
        forall j: nat
          ensures OccursAt(pattern, u[..n], j) <==> OccursAt(pattern, u, j) && j + |pattern| <= n
        {
          OccursInPrefix(pattern, u, n, j);
        }
        off := Search(pattern, readBuf[readPos..]);
        if off.Some? {
          FoundWithin(pattern, u, n, off.value);
          return;
        }
        if |readBuf| - readPos >= limit {
          return None;
        }
        var ok := FillBuffer(|readBuf| - readPos + 1);
        if !ok {
          AllBuffered(pattern, u, n);
          return None;
        }
      }
    }

    /** Wait for n bytes and consume them; `u` is the stream and `pos` how much of it was consumed before. */
    method Take(n: nat, ghost u: bytes, ghost pos: nat) returns (ok: bool, out: bytes)
      requires Valid() && pos <= |u| && Unread() == u[pos..]
      modifies this`readBuf, this`readPos, this`incoming
      ensures Valid()
      ensures ok <==> pos + n <= |u|
      ensures ok ==> out == u[pos..pos + n] && Unread() == u[pos + n..]
      ensures !ok ==> out == []
    {
      ok := FillBuffer(n);
      out := [];
      if ok {
        out := ConsumeBytes(n);
        assert u[pos..][..n] == u[pos..pos + n] && u[pos..][n..] == u[pos + n..];
      }
    }

    /** read_dec: n bytes, `from` bytes into the encrypted stretch at `base`, decrypted with stream st. */
    method TakeDecrypted(st: Rc4Key, from: nat, n: nat, ghost u: bytes, ghost base: nat) returns (ok: bool, out: bytes)
      requires Valid() && base + from <= |u| && Unread() == u[base + from..]
      modifies this`readBuf, this`readPos, this`incoming
      ensures Valid()
      ensures ok <==> base + from + n <= |u|
      ensures ok ==> out == Dec(st, u, base, from, n) && Unread() == u[base + from + n..]
    {
      hide Crypted, After;
      ok, out := Take(n, u, base + from);
      if ok {
        out := Crypted(After(st, from), out);
      }
    }

    /** What a negotiation with the given outcome leaves behind. */
    ghost predicate Concluded(o: Outcome, r: MseResult, peer: bytes, u: bytes, wireBefore: bytes)
      reads this
    {
      && Valid()
      && r == o.result && peer == o.handshake
      && wire == wireBefore + o.sent
      && crypto == o.crypto && active == o.crypto.Some?
      && (r != Failed ==> o.taken <= |u| && Unread() == u[o.taken..])
    }

    /** mse_handshake_initiator, with private exponent x. */
    method MseHandshakeInitiator(h: Hash, x: nat, skey: bytes, handshake: bytes)
      returns (r: MseResult, peer: bytes, ghost off: Option<nat>)
      requires Valid() && !active && crypto.None?
      modifies this
      ensures var u := old(Unread());
              |handshake| == HANDSHAKE_LEN && DH_KEY_SIZE <= |u| ==>
                ScanResult(VcPattern(h, u[..DH_KEY_SIZE], x, skey), u[DH_KEY_SIZE..], MAX_PAD + 8, off)
      ensures Concluded(Initiator(h, x, skey, handshake, old(Unread()), off), r, peer, old(Unread()), old(wire))
    {
      hide Crypted, After, Dec, StreamKey, PublicKey, Secret, FromBE, ToBE, XorAll, ScanResult, OccursAt;
      hide OfferMessage, OfferBlock, InitiatorEnd;
      ghost var u := Unread();
      r, peer, off := Failed, [], None;
      assert wire + [] == wire && u[0..] == u;
      if |handshake| != HANDSHAKE_LEN {
        return;
      }
      var ya := PublicKey(x);
      SendRaw(ya);
      var ok, yb := Take(DH_KEY_SIZE, u, 0);
      if !ok {
        return;
      }
      var secret := Secret(yb, x);
      var encrypt, decrypt := StreamKey(h, KEY_A, secret, skey), StreamKey(h, KEY_B, secret, skey);
      SendOffer(h, secret, skey, encrypt, handshake);
      ghost var sent := ya + OfferMessage(h, secret, skey, encrypt, handshake);
      assert wire == old(wire) + sent;

      var found := Scan(Crypted(decrypt, ZEROS8), MAX_PAD + 8);
      off := found;
      if found.None? {
        return;
      }
      var _, _ := Take(found.value + 8, u, DH_KEY_SIZE);
      r, peer := FinishInitiator(decrypt, After(encrypt, 16 + HANDSHAKE_LEN), u, DH_KEY_SIZE + found.value, sent,
                                 old(wire));
    }

    /** Build and send the initiator's offer. */
    method SendOffer(h: Hash, secret: bytes, skey: bytes, encrypt: Rc4Key, handshake: bytes)
      requires Valid() && !active && |handshake| == HANDSHAKE_LEN
      modifies this`wire, this`crypto
      ensures Valid() && crypto == old(crypto)
      ensures wire == old(wire) + OfferMessage(h, secret, skey, encrypt, handshake)
    {
      hide Crypted, After, XorAll, OfferBlock, OfferMessage;
      var skeyObf := XorAll(h(REQ2 + skey), h(REQ3 + secret));
      var block := OfferBlock();
      OfferInParts(h, secret, skey, encrypt, handshake);
      SendRaw(h(REQ1 + secret) + skeyObf + Crypted(encrypt, block) + Crypted(After(encrypt, 16), handshake));
    }

    /** The end of the initiator: read the selected method, skip the pad, read the peer's handshake. */
    method FinishInitiator(inn: Rc4Key, encrypt: Rc4Key, ghost u: bytes, ghost base: nat, ghost sent: bytes,
                           ghost before: bytes)
      returns (r: MseResult, peer: bytes)
      requires Valid() && !active && crypto.None? && base + 8 <= |u| && Unread() == u[base + 8..]
      requires wire == before + sent
      modifies this
      ensures Concluded(InitiatorEnd(inn, encrypt, u, base, sent), r, peer, u, before)
    {
      hide Crypted, After, FromBE, Dec;
      r, peer := Failed, [];
      var ok, hdr := TakeDecrypted(inn, 8, 6, u, base);
      if !ok {
        return;
      }
      var select, pad := FromBE(hdr[..4]), FromBE(hdr[4..]);
      if (select != CRYPTO_PLAINTEXT && select != CRYPTO_RC4) || pad > MAX_PAD {
        return;
      }
      var ok', _ := Take(pad, u, base + 14);
      if !ok' {
        return;
      }
      var ok'', hs := TakeDecrypted(inn, 14 + pad, HANDSHAKE_LEN, u, base);
      if !ok'' {
        return;
      }
      peer := hs;
      r := if select == CRYPTO_RC4 then Rc4Mode else PlaintextMode;
      crypto := Some(Crypto(encrypt, After(inn, 14 + pad + HANDSHAKE_LEN), select == CRYPTO_RC4));
      active := true;
    }

    /** mse_handshake_acceptor, with private exponent x. */
    method MseHandshakeAcceptor(h: Hash, x: nat, skey: bytes) returns (r: MseResult, peer: bytes, ghost off: Option<nat>)
      requires Valid() && !active && crypto.None?
      modifies this
      ensures var u := old(Unread());
              DH_KEY_SIZE <= |u| && u[0] != 0x13 ==>
                ScanResult(SyncPattern(h, u[..DH_KEY_SIZE], x), u[DH_KEY_SIZE..], MAX_PAD + 40, off)
      ensures Concluded(Acceptor(h, x, skey, old(Unread()), off), r, peer, old(Unread()), old(wire))
    {
      hide Crypted, After, Dec, StreamKey, PublicKey, Secret, FromBE, ToBE, XorAll, ScanResult, OccursAt, AcceptOffer;
      ghost var u := Unread();
      r, peer, off := Failed, [], None;
      assert wire + [] == wire && u[0..] == u;
      var ok := FillBuffer(1);
      if !ok {
        return;
      }
      if readBuf[readPos] == 0x13 {
        r := PlaintextMode;
        return;
      }
      var ok', ya := Take(DH_KEY_SIZE, u, 0);
      if !ok' {
        return;
      }
      var yb, secret := PublicKey(x), Secret(ya, x);
      SendRaw(yb);
      var found := Scan(h(REQ1 + secret), MAX_PAD + 40);
      off := found;
      if found.None? {
        return;
      }
      ghost var at := DH_KEY_SIZE + found.value + 20;
      var _, _ := Take(found.value + 20, u, DH_KEY_SIZE);
      r, peer := CheckTorrentKey(h, yb, secret, skey, u, at, old(wire));
    }

    /** Recover the hash of the torrent key the peer asks for, and go on only if it is ours. */
    method CheckTorrentKey(h: Hash, ghost yb: bytes, secret: bytes, skey: bytes, ghost u: bytes, ghost at: nat,
                           ghost before: bytes)
      returns (r: MseResult, peer: bytes)
      requires Valid() && !active && crypto.None? && at <= |u| && Unread() == u[at..]
      requires wire == before + yb
      modifies this
      ensures Concluded(AcceptOffer(h, yb, secret, skey, u, at), r, peer, u, before)
    {
      hide Crypted, After, Dec, StreamKey, FromBE, ToBE, XorAll, AcceptStream;
      r, peer := Failed, [];
      var ok, obf := Take(20, u, at);
      if !ok {
        return;
      }
      obf := XorAll(obf, h(REQ3 + secret));
      if obf != h(REQ2 + skey) {
        return;
      }
      var decrypt, encrypt := StreamKey(h, KEY_A, secret, skey), StreamKey(h, KEY_B, secret, skey);
      r, peer := FinishAcceptor(decrypt, encrypt, yb, u, at + 20, before);
    }

    /** Decrypt the peer's offer and handshake, and select a method. */
    method ReadOffer(inn: Rc4Key, ghost u: bytes, ghost base: nat)
      returns (ok: bool, select: nat, pad: nat, peer: bytes)
      requires Valid() && base <= |u| && Unread() == u[base..]
      modifies this`readBuf, this`readPos, this`incoming
      ensures Valid() && (ok <==> OfferOk(inn, u, base))
      ensures ok ==> select == SelectIn(inn, u, base) && pad == PadIn(inn, u, base)
      ensures ok ==> peer == Dec(inn, u, base, 16 + pad, HANDSHAKE_LEN)
      ensures ok ==> Unread() == u[base + 16 + pad + HANDSHAKE_LEN..]
    {
      hide Crypted, After, FromBE, ToBE, Dec, Select;
      ok, select, pad, peer := false, 0, 0, [];
      var ok0, vc := TakeDecrypted(inn, 0, 8, u, base);
      if !ok0 || vc != ZEROS8 {
        return;
      }
      var ok1, provide := TakeDecrypted(inn, 8, 4, u, base);
      if !ok1 {
        return;
      }
      var ok2, lenPad := TakeDecrypted(inn, 12, 2, u, base);
      if !ok2 {
        return;
      }
      pad, select := FromBE(lenPad), Select(FromBE(provide));
      if pad > MAX_PAD {
        return;
      }
      var ok3, _ := Take(pad, u, base + 14);
      if !ok3 {
        return;
      }
      var ok4, lenIa := TakeDecrypted(inn, 14 + pad, 2, u, base);
      if !ok4 || FromBE(lenIa) != HANDSHAKE_LEN {
        return;
      }
      var ok5, ia := TakeDecrypted(inn, 16 + pad, HANDSHAKE_LEN, u, base);
      ok, peer := ok5 && select != 0, ia;
    }

    /** The end of the acceptor: read the offer, and announce the method selected. */
    method FinishAcceptor(inn: Rc4Key, out: Rc4Key, ghost yb: bytes, ghost u: bytes, ghost base: nat, ghost before: bytes)
      returns (r: MseResult, peer: bytes)
      requires Valid() && !active && crypto.None? && base <= |u| && Unread() == u[base..]
      requires wire == before + yb
      modifies this
      ensures Concluded(AcceptStream(inn, out, yb, u, base), r, peer, u, before)
    {
      hide Crypted, After, FromBE, ToBE, Dec, Select, SelectIn, PadIn;
      var ok, select, pad, ia := ReadOffer(inn, u, base);
      if !ok {
        return Failed, [];
      }
      r := Announce(After(inn, 16 + pad + HANDSHAKE_LEN), out, select);
      peer := ia;
    }

    /** Select the crypto method: announce it, encrypted if it is RC4, and switch the socket over. */
    method Announce(decrypt: Rc4Key, out: Rc4Key, select: nat) returns (r: MseResult)
      requires Valid() && !active && crypto.None?
      modifies this`wire, this`crypto, this`active
      ensures Valid() && active
      ensures var rc4, step4 := select == CRYPTO_RC4, SelectBlock(select);
              && wire == old(wire) + (if rc4 then Crypted(out, step4) else step4)
              && r == (if rc4 then Rc4Mode else PlaintextMode)
              && crypto == Some(Crypto(if rc4 then After(out, |step4|) else out, decrypt, rc4))
    {
      var rc4, step4 := select == CRYPTO_RC4, SelectBlock(select);
      SendRaw(if rc4 then Crypted(out, step4) else step4);
      r := if rc4 then Rc4Mode else PlaintextMode;
      crypto := Some(Crypto(if rc4 then After(out, |step4|) else out, decrypt, rc4));
      active := true;
    }
  }

  lemma Delivered(readBuf: bytes, readPos: nat, incoming: bytes, got: nat)
    requires readPos <= |readBuf| && got <= |incoming|
    ensures (readBuf + incoming[..got])[readPos..] + incoming[got..] == readBuf[readPos..] + incoming
  {
  }

  lemma NothingCrypted(c: Cipher, u: bytes)
    requires 4 <= |u|
    ensures Crypt(c, u[4..4]) == [] && Advance(c, 0) == c
  {
  }

  lemma ReceiveAllStep(u: bytes, c: Cipher)
    ensures var (first, n) := Receive(u, c);
            ReceiveAll(u, c) ==
            if first.Message? then
              var (ms, end) := ReceiveAll(u[n..], Advance(c, n));
              ([first.m] + ms, end)
            else ([], first)
  {
  }

  lemma FoundWithin(pattern: bytes, u: bytes, n: nat, k: nat)
    requires n <= |u| && OccursAt(pattern, u[..n], k)
    ensures k + |pattern| <= n
    ensures OccursAt(pattern, u, k)
  {
  }

  lemma AllBuffered(pattern: bytes, u: bytes, n: nat)
    requires n == |u| && forall j: nat :: !OccursAt(pattern, u[..n], j)
    ensures forall j: nat :: !OccursAt(pattern, u, j)
  {
    assert u[..n] == u;
  }

  /** Encrypting the offer and then the handshake is encrypting them together. */
  lemma OfferInParts(h: Hash, secret: bytes, skey: bytes, out: Rc4Key, handshake: bytes)
    requires |handshake| == HANDSHAKE_LEN
    ensures h(REQ1 + secret) + XorAll(h(REQ2 + skey), h(REQ3 + secret)) + Crypted(out, OfferBlock())
            + Crypted(After(out, 16), handshake) == OfferMessage(h, secret, skey, out, handshake)
  {
    hide Crypted, After, XorAll, OfferBlock;
    BlockLengths();
    CryptedSplit(out, OfferBlock(), handshake);
  }
}
