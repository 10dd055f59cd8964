/**
 * Message Stream Encryption: what the two sides of the negotiation send and conclude, as functions of the byte
 * stream each receives, and the meeting of the two. SHA-1 is a parameter; the key exchange is modular
 * exponentiation.
 */
module Mse {
  import opened Arith
  import opened Bytes
  import opened StreamCipher

  type Digest = d: bytes | |d| == 20 witness seq(20, _ => 0)

  type Hash = bytes -> Digest

  const DH_KEY_SIZE: nat := 96
  const RC4_DISCARD: nat := 1024
  const MAX_PAD: nat := 512
  const HANDSHAKE_LEN: nat := 68

  const CRYPTO_PLAINTEXT: nat := 1
  const CRYPTO_RC4: nat := 2

  const REQ1: bytes := [114, 101, 113, 49]
  const REQ2: bytes := [114, 101, 113, 50]
  const REQ3: bytes := [114, 101, 113, 51]
  const KEY_A: bytes := [107, 101, 121, 65]
  const KEY_B: bytes := [107, 101, 121, 66]

  const ZEROS8: bytes := [0, 0, 0, 0, 0, 0, 0, 0]

  // ---- Key exchange ----

  const PRIME: nat :=
    0xFFFFFFFFFFFFFFFFC90FDAA22168C234C4C6628B80DC1CD129024E088A67CC74020BBEA63B139B22514A08798E3404DDEF9519B3CD3A431B302B0A6DF25F14374FE1356D6D51C245E485B576625E7EC6F44C42E9A63A36210000000000090563

  function ModExp(b: nat, e: nat, m: nat): (r: nat)
    requires 0 < m
    ensures r < m
  {
    Pow(b, e) % m
  }

  /** generate_keypair: the public key of private exponent x. */
  function PublicKey(x: nat): (r: bytes)
    ensures |r| == DH_KEY_SIZE
  {
    ToBE(ModExp(2, x, PRIME), DH_KEY_SIZE)
  }

  /** compute_secret */
  function Secret(peer: bytes, x: nat): (r: bytes)
    ensures |r| == DH_KEY_SIZE
  {
    ToBE(ModExp(FromBE(peer), x, PRIME), DH_KEY_SIZE)
  }

  lemma PrimeFits()
    ensures PRIME <= Pow256(DH_KEY_SIZE)
  {
    hide Pow256;
    Pow256Of32();
    Pow256Sum(32, 32);
    Pow256Sum(64, 32);
  }

  lemma Pow256Of32()
    ensures Pow256(32) == 0x1_0000000000000000000000000000000000000000000000000000000000000000
  {
    hide Pow256;
    Pow256Of4();
    Pow256Sum(4, 4);
    Pow256Sum(8, 8);
    Pow256Sum(16, 16);
  }

  /** Both sides compute the same secret. */
  lemma SharedSecret(a: nat, b: nat)
    ensures Secret(PublicKey(b), a) == Secret(PublicKey(a), b)
  {
    SecretIs(a, b);
    SecretIs(b, a);
    assert a * b == b * a;
  }

  lemma SecretIs(a: nat, b: nat)
    ensures Secret(PublicKey(b), a) == ToBE(Pow(2, b * a) % PRIME, DH_KEY_SIZE)
  {
    PrimeFits();
    var pub := ModExp(2, b, PRIME);
    BigEndianRoundTrip(pub, DH_KEY_SIZE);
    PowMod(Pow(2, b), a, PRIME);
    PowPow(2, b, a);
  }

  // ---- The streams of a negotiation ----

  /** The RC4 stream of one direction, with its first bytes discarded. */
  function StreamKey(h: Hash, tag: bytes, secret: bytes, skey: bytes): Rc4Key {
    After(Keyed(h(tag + secret + skey)), RC4_DISCARD)
  }

  /** VC, offered methods, no pad, and the length of the initial payload. */
  function OfferBlock(): bytes {
    ZEROS8 + ToBE(CRYPTO_PLAINTEXT + CRYPTO_RC4, 4) + ToBE(0, 2) + ToBE(HANDSHAKE_LEN, 2)
  }

  /** The initiator's third message: sync hash, obfuscated torrent key, encrypted offer and handshake. */
  function OfferMessage(h: Hash, secret: bytes, skey: bytes, out: Rc4Key, handshake: bytes): bytes {
    h(REQ1 + secret) + XorAll(h(REQ2 + skey), h(REQ3 + secret)) + Crypted(out, OfferBlock() + handshake)
  }

  function SelectBlock(select: nat): bytes {
    ZEROS8 + ToBE(select, 4) + ToBE(0, 2)
  }

  /** n bytes of the stream u, `from` bytes into the encrypted stretch at `base`, decrypted. */
  function Dec(st: Rc4Key, u: bytes, base: nat, from: nat, n: nat): (r: bytes)
    requires base + from + n <= |u|
    ensures |r| == n
  {
    Crypted(After(st, from), u[base + from..base + from + n])
  }

  // ---- The two sides ----

  datatype MseResult = Rc4Mode | PlaintextMode | Failed

  datatype Crypto = Crypto(encrypt: Rc4Key, decrypt: Rc4Key, rc4: bool)

  /** What a side sends, how much of its input it takes, and what it ends up with. */
  datatype Outcome = Outcome(sent: bytes, taken: nat, result: MseResult, handshake: bytes, crypto: Option<Crypto>)

  function Failure(sent: bytes): Outcome {
    Outcome(sent, 0, Failed, [], None)
  }

  /** The initiator from the encrypted verification constant on, which stands at position `base` of u. */
  function InitiatorEnd(inn: Rc4Key, out: Rc4Key, u: bytes, base: nat, sent: bytes): Outcome {
    if |u| < base + 14 then Failure(sent)
    else
      var hdr := Dec(inn, u, base, 8, 6);
      var select, pad := FromBE(hdr[..4]), FromBE(hdr[4..]);
      var end := 14 + pad + HANDSHAKE_LEN;
      if (select != CRYPTO_PLAINTEXT && select != CRYPTO_RC4) || pad > MAX_PAD || |u| < base + end then Failure(sent)
      else
        Outcome(sent, base + end, if select == CRYPTO_RC4 then Rc4Mode else PlaintextMode,
                Dec(inn, u, base, 14 + pad, HANDSHAKE_LEN),
                Some(Crypto(out, After(inn, end), select == CRYPTO_RC4)))
  }

  /**
   * mse_handshake_initiator with private exponent x, on the incoming stream u; `off` is where the scan after the
   * peer's public key finds the encrypted verification constant.
   */
  function Initiator(h: Hash, x: nat, skey: bytes, handshake: bytes, u: bytes, off: Option<nat>): Outcome {
    if |handshake| != HANDSHAKE_LEN then Failure([])
    else if |u| < DH_KEY_SIZE then Failure(PublicKey(x))
    else
      var secret := Secret(u[..DH_KEY_SIZE], x);
      var out, inn := StreamKey(h, KEY_A, secret, skey), StreamKey(h, KEY_B, secret, skey);
      var sent := PublicKey(x) + OfferMessage(h, secret, skey, out, handshake);
      if off.None? then Failure(sent)
      else InitiatorEnd(inn, After(out, 16 + HANDSHAKE_LEN), u, DH_KEY_SIZE + off.value, sent)
  }

  /** The method the acceptor picks from those offered; 0 if there is none. */
  function Select(provide: nat): nat {
    if provide / 2 % 2 == 1 then CRYPTO_RC4 else if provide % 2 == 1 then CRYPTO_PLAINTEXT else 0
  }

  /** The acceptor from the obfuscated torrent key on, which stands at position `at` of u. */
  function AcceptOffer(h: Hash, yb: bytes, secret: bytes, skey: bytes, u: bytes, at: nat): Outcome {
    if |u| < at + 20 || XorAll(u[at..at + 20], h(REQ3 + secret)) != h(REQ2 + skey) then Failure(yb)
    else
      AcceptStream(StreamKey(h, KEY_A, secret, skey), StreamKey(h, KEY_B, secret, skey), yb, u, at + 20)
  }

  function SelectIn(inn: Rc4Key, u: bytes, base: nat): nat
    requires base + 14 <= |u|
  {
    Select(FromBE(Dec(inn, u, base, 8, 4)))
  }

  function PadIn(inn: Rc4Key, u: bytes, base: nat): nat
    requires base + 14 <= |u|
  {
    FromBE(Dec(inn, u, base, 12, 2))
  }

  /** The encrypted offer at `base` is whole, well-formed and acceptable. */
  predicate OfferOk(inn: Rc4Key, u: bytes, base: nat) {
    && base + 14 <= |u|
    && Dec(inn, u, base, 0, 8) == ZEROS8
    && PadIn(inn, u, base) <= MAX_PAD
    && base + 16 + PadIn(inn, u, base) + HANDSHAKE_LEN <= |u|
    && FromBE(Dec(inn, u, base, 14 + PadIn(inn, u, base), 2)) == HANDSHAKE_LEN
    && SelectIn(inn, u, base) != 0
  }

  /** The acceptor from the encrypted offer on. */
  function AcceptStream(inn: Rc4Key, out: Rc4Key, yb: bytes, u: bytes, base: nat): Outcome {
    if !OfferOk(inn, u, base) then Failure(yb)
    else
      var select, pad := SelectIn(inn, u, base), PadIn(inn, u, base);
      var end, rc4, step4 := 16 + pad + HANDSHAKE_LEN, select == CRYPTO_RC4, SelectBlock(select);
      Outcome(yb + (if rc4 then Crypted(out, step4) else step4), base + end,
              if rc4 then Rc4Mode else PlaintextMode,
              Dec(inn, u, base, 16 + pad, HANDSHAKE_LEN),
              Some(Crypto(if rc4 then After(out, |step4|) else out, After(inn, end), rc4)))
  }

  /**
   * mse_handshake_acceptor on the incoming stream u; `off` is where the scan after the peer's public key finds
   * the sync hash. A first byte of 0x13 is taken for a plaintext peer.
   */
  function Acceptor(h: Hash, x: nat, skey: bytes, u: bytes, off: Option<nat>): Outcome {
    if u == [] then Failure([])
    else if u[0] == 0x13 then Outcome([], 0, PlaintextMode, [], None)
    else if |u| < DH_KEY_SIZE then Failure([])
    else if off.None? then Failure(PublicKey(x))
    else AcceptOffer(h, PublicKey(x), Secret(u[..DH_KEY_SIZE], x), skey, u, DH_KEY_SIZE + off.value + 20)
  }

  // ---- Scanning for a pattern ----

  predicate OccursAt(pattern: bytes, s: bytes, k: nat) {
    k + |pattern| <= |s| && s[k..k + |pattern|] == pattern
  }

  /**
   * What a scan of the stream s may report: the first occurrence, or that there is none within the first
   * `limit` bytes.
   */
  ghost predicate ScanResult(pattern: bytes, s: bytes, limit: nat, off: Option<nat>) {
    match off
    case Some(k) => OccursAt(pattern, s, k) && forall j: nat :: j < k ==> !OccursAt(pattern, s, j)
    case None => forall j: nat :: OccursAt(pattern, s, j) ==> limit < j + |pattern|
  }

  /** The sync hash and the encrypted verification constant, given the peer's public key. */
  function SyncPattern(h: Hash, peer: bytes, x: nat): bytes {
    h(REQ1 + Secret(peer, x))
  }

  function VcPattern(h: Hash, peer: bytes, x: nat, skey: bytes): bytes {
    Crypted(StreamKey(h, KEY_B, Secret(peer, x), skey), ZEROS8)
  }

  /** There is always something for a scan to report. */
  lemma {:induction false} ScanDecides(pattern: bytes, s: bytes, limit: nat, from: nat) returns (off: Option<nat>)
    requires forall j: nat :: j < from ==> !OccursAt(pattern, s, j)
    ensures ScanResult(pattern, s, limit, off)
    decreases |s| - from
  {
    if from + |pattern| > |s| {
      off := None;
    } else if OccursAt(pattern, s, from) {
      off := Some(from);
    } else {
      off := ScanDecides(pattern, s, limit, from + 1);
    }
  }

  lemma ScanAtStart(pattern: bytes, s: bytes, limit: nat, off: Option<nat>)
    requires pattern <= s && |pattern| <= limit && ScanResult(pattern, s, limit, off)
    ensures off == Some(0)
  {
    assert OccursAt(pattern, s, 0);
  }

  // ---- The two sides meet ----

  /** Any stretch of an encrypted text decrypts to the same stretch of the text. */
  lemma DecPart(st: Rc4Key, u: bytes, base: nat, p: bytes, from: nat, n: nat)
    requires from + n <= |p| && base + |p| <= |u| && u[base..base + |p|] == Crypted(st, p)
    ensures Dec(st, u, base, from, n) == p[from..from + n]
  {
    hide Crypted, After;
    var b := p[from..from + n];
    CryptedPart(st, p, from, n);
    SubSlice(u, base, |p|, from, n);
    CryptedTwice(After(st, from), b);
  }

  lemma SubSlice(u: bytes, base: nat, m: nat, from: nat, n: nat)
    requires base + m <= |u| && from + n <= m
    ensures u[base..base + m][from..from + n] == u[base + from..base + from + n]
  {
    var w := u[base..base + m];
    assert forall k :: 0 <= k < m ==> w[k] == u[base + k];
  }

  lemma CryptedPart(st: Rc4Key, p: bytes, from: nat, n: nat)
    requires from + n <= |p|
    ensures Crypted(st, p)[from..from + n] == Crypted(After(st, from), p[from..from + n])
  {
    hide Crypted, After;
    var a, b, c := p[..from], p[from..from + n], p[from + n..];
    assert p == a + (b + c);
    CryptedSplit(st, a, b + c);
    CryptedSplit(After(st, from), b, c);
    Middle(Crypted(st, a), Crypted(After(st, from), b), Crypted(After(After(st, from), n), c));
  }

  lemma Middle(a: bytes, b: bytes, c: bytes)
    ensures (a + (b + c))[|a|..|a| + |b|] == b
  {
  }

  lemma Fields(v: bytes, a: bytes, b: bytes, c: bytes, d: bytes)
    requires |v| == 8 && |a| == 4 && |b| == 2
    ensures var p := v + a + b + c + d;
            && p[0..8] == v && p[8..12] == a && p[12..14] == b && p[14..14 + |c|] == c && p[14 + |c|..14 + |c| + |d|] == d
            && p[8..14][..4] == a && p[8..14][4..] == b
  {
  }

  lemma Numbers()
    ensures FromBE(ToBE(CRYPTO_PLAINTEXT + CRYPTO_RC4, 4)) == 3 && FromBE(ToBE(CRYPTO_RC4, 4)) == CRYPTO_RC4
    ensures FromBE(ToBE(0, 2)) == 0 && FromBE(ToBE(HANDSHAKE_LEN, 2)) == HANDSHAKE_LEN
    ensures Pow256(2) == 65536 && Pow256(4) == 0x1_0000_0000
  {
    Pow256Of4();
    assert Pow256(2) == 65536;
    BigEndianRoundTrip(3, 4);
    BigEndianRoundTrip(CRYPTO_RC4, 4);
    BigEndianRoundTrip(0, 2);
    BigEndianRoundTrip(HANDSHAKE_LEN, 2);
  }

  lemma BlockLengths()
    ensures |OfferBlock()| == 16 && |SelectBlock(CRYPTO_RC4)| == 14
  {
  }

  /** What an initiator may offer: any set of methods, and padding. */
  function AnyOffer(provide: nat, pad: bytes): bytes {
    ZEROS8 + ToBE(provide, 4) + ToBE(|pad|, 2) + (pad + ToBE(HANDSHAKE_LEN, 2))
  }

  lemma OfferFields(provide: nat, pad: bytes, handshake: bytes)
    requires |handshake| == HANDSHAKE_LEN && provide < Pow256(4) && |pad| <= MAX_PAD
    ensures var p, n := AnyOffer(provide, pad) + handshake, 14 + |pad|;
            && |AnyOffer(provide, pad)| == n + 2
            && p[0..8] == ZEROS8
            && FromBE(p[8..12]) == provide
            && FromBE(p[12..14]) == |pad|
            && FromBE(p[n..n + 2]) == HANDSHAKE_LEN
            && p[n + 2..n + 2 + HANDSHAKE_LEN] == handshake
  {
    hide FromBE, ToBE, Pow256;
    Numbers();
    BigEndianRoundTrip(provide, 4);
    BigEndianRoundTrip(|pad|, 2);
    var tail := pad + ToBE(HANDSHAKE_LEN, 2);
    Fields(ZEROS8, ToBE(provide, 4), ToBE(|pad|, 2), tail, handshake);
    var p, n := AnyOffer(provide, pad) + handshake, 14 + |pad|;
    SubSlice(p, 14, |tail|, |pad|, 2);
    assert tail[|pad|..|pad| + 2] == ToBE(HANDSHAKE_LEN, 2);
  }

  /** What an acceptor may answer: any method, and padding. */
  function AnyAnswer(select: nat, pad: bytes): bytes {
    ZEROS8 + ToBE(select, 4) + ToBE(|pad|, 2) + pad
  }

  lemma AnswerFields(select: nat, pad: bytes, handshake: bytes)
    requires |handshake| == HANDSHAKE_LEN && select < Pow256(4) && |pad| <= MAX_PAD
    ensures var p, n := AnyAnswer(select, pad) + handshake, 14 + |pad|;
            && |AnyAnswer(select, pad)| == n
            && FromBE(p[8..14][..4]) == select
            && FromBE(p[8..14][4..]) == |pad|
            && p[n..n + HANDSHAKE_LEN] == handshake
  {
    hide FromBE, ToBE, Pow256;
    Numbers();
    BigEndianRoundTrip(select, 4);
    BigEndianRoundTrip(|pad|, 2);
    Fields(ZEROS8, ToBE(select, 4), ToBE(|pad|, 2), pad, handshake);
  }

  /**
   * The acceptor on any well-formed offer: it takes exactly the offer's bytes and the handshake, ends in RC4 mode whenever bit 1
   * is offered, in plaintext mode (and answers unencrypted) if only bit 0 is, and fails if neither is.
   */
  lemma AcceptsAnyOffer(inn: Rc4Key, out: Rc4Key, yb: bytes, provide: nat, pad: bytes, handshake: bytes, u: bytes, base: nat)
    requires |handshake| == HANDSHAKE_LEN && provide < Pow256(4) && |pad| <= MAX_PAD
    requires base + 16 + |pad| + HANDSHAKE_LEN <= |u|
    requires u[base..base + 16 + |pad| + HANDSHAKE_LEN] == Crypted(inn, AnyOffer(provide, pad) + handshake)
    ensures var end := 16 + |pad| + HANDSHAKE_LEN;
            AcceptStream(inn, out, yb, u, base) ==
            if provide % 4 >= 2 then
              Outcome(yb + Crypted(out, SelectBlock(CRYPTO_RC4)), base + end, Rc4Mode, handshake,
                      Some(Crypto(After(out, |SelectBlock(CRYPTO_RC4)|), After(inn, end), true)))
            else if provide % 4 == 1 then
              Outcome(yb + SelectBlock(CRYPTO_PLAINTEXT), base + end, PlaintextMode, handshake,
                      Some(Crypto(out, After(inn, end), false)))
            else Failure(yb)
  {
    hide Crypted, After, Dec, AnyOffer, SelectBlock, FromBE, Pow256;
    var p, n := AnyOffer(provide, pad) + handshake, |pad|;
    OfferFields(provide, pad, handshake);
    DecPart(inn, u, base, p, 0, 8);
    DecPart(inn, u, base, p, 8, 4);
    DecPart(inn, u, base, p, 12, 2);
    DecPart(inn, u, base, p, 14 + n, 2);
    DecPart(inn, u, base, p, 16 + n, HANDSHAKE_LEN);
    Bits(provide);
  }

  lemma Bits(provide: nat)
    ensures provide % 4 >= 2 <==> provide / 2 % 2 == 1
    ensures provide % 4 == 1 <==> provide / 2 % 2 == 0 && provide % 2 == 1
  {
  }

  /** The acceptor reads exactly what the initiator put into its offer. */
  lemma AcceptsOffer(inn: Rc4Key, out: Rc4Key, yb: bytes, handshake: bytes, u: bytes, base: nat)
    requires |handshake| == HANDSHAKE_LEN && base + 16 + HANDSHAKE_LEN <= |u|
    requires u[base..base + 16 + HANDSHAKE_LEN] == Crypted(inn, OfferBlock() + handshake)
    ensures AcceptStream(inn, out, yb, u, base) ==
            Outcome(yb + Crypted(out, SelectBlock(CRYPTO_RC4)), base + 16 + HANDSHAKE_LEN, Rc4Mode, handshake,
                    Some(Crypto(After(out, |SelectBlock(CRYPTO_RC4)|), After(inn, 16 + HANDSHAKE_LEN), true)))
  {
    hide Crypted, After, Dec, SelectBlock, FromBE, AcceptStream;
    assert OfferBlock() == AnyOffer(3, []);
    Numbers();
    AcceptsAnyOffer(inn, out, yb, 3, [], handshake, u, base);
  }

  /** The initiator on any encrypted answer: its mode is the method selected, and it fails on any but the two it offered. */
  lemma FinishesOnAnswer(inn: Rc4Key, out: Rc4Key, select: nat, pad: bytes, handshake: bytes, u: bytes, base: nat, sent: bytes)
    requires |handshake| == HANDSHAKE_LEN && select < Pow256(4) && |pad| <= MAX_PAD
    requires base + 14 + |pad| + HANDSHAKE_LEN <= |u|
    requires u[base..base + 14 + |pad| + HANDSHAKE_LEN] == Crypted(inn, AnyAnswer(select, pad) + handshake)
    ensures var end := 14 + |pad| + HANDSHAKE_LEN;
            InitiatorEnd(inn, out, u, base, sent) ==
            if select == CRYPTO_RC4 then
              Outcome(sent, base + end, Rc4Mode, handshake, Some(Crypto(out, After(inn, end), true)))
            else if select == CRYPTO_PLAINTEXT then
              Outcome(sent, base + end, PlaintextMode, handshake, Some(Crypto(out, After(inn, end), false)))
            else Failure(sent)
  {
    hide Crypted, After, Dec, AnyAnswer, FromBE, Pow256;
    var p := AnyAnswer(select, pad) + handshake;
    AnswerFields(select, pad, handshake);
    DecPart(inn, u, base, p, 8, 6);
    DecPart(inn, u, base, p, 14 + |pad|, HANDSHAKE_LEN);
  }

  /** The initiator reads exactly what an acceptor that selects RC4 and then sends its handshake puts there. */
  lemma InitiatorFinishes(inn: Rc4Key, out: Rc4Key, handshake: bytes, u: bytes, base: nat, sent: bytes)
    requires |handshake| == HANDSHAKE_LEN && base + 14 + HANDSHAKE_LEN <= |u|
    requires u[base..base + 14 + HANDSHAKE_LEN] == Crypted(inn, SelectBlock(CRYPTO_RC4) + handshake)
    ensures InitiatorEnd(inn, out, u, base, sent) ==
            Outcome(sent, base + 14 + HANDSHAKE_LEN, Rc4Mode, handshake,
                    Some(Crypto(out, After(inn, 14 + HANDSHAKE_LEN), true)))
  {
    hide Crypted, After, Dec, FromBE, InitiatorEnd;
    assert SelectBlock(CRYPTO_RC4) == AnyAnswer(CRYPTO_RC4, []);
    Numbers();
    FinishesOnAnswer(inn, out, CRYPTO_RC4, [], handshake, u, base, sent);
  }

  /** What the initiator puts on the wire once it has the acceptor's public key. */
  function Offer(h: Hash, xa: nat, yb: bytes, skey: bytes, hsA: bytes): bytes {
    var secret := Secret(yb, xa);
    PublicKey(xa) + OfferMessage(h, secret, skey, StreamKey(h, KEY_A, secret, skey), hsA)
  }

  lemma Parts(a: bytes, b: bytes, c: bytes, d: bytes, e: bytes)
    ensures var u, n := a + b + c + d + e, |a| + |b|;
            && u[..|a|] == a
            && u[|a|..] == b + (c + d + e)
            && u[n..n + |c|] == c
            && u[n + |c|..n + |c| + |d|] == d
  {
  }

  /**
   * The acceptor on the stream of an initiator for the same torrent: it completes with RC4 and the initiator's
   * handshake exactly when the initiator's public key does not begin like a plaintext handshake.
   */
  lemma AcceptorMeetsInitiator(h: Hash, xa: nat, xb: nat, skey: bytes, hsA: bytes, tail: bytes, off: Option<nat>)
    requires |hsA| == HANDSHAKE_LEN
    requires ScanResult(SyncPattern(h, PublicKey(xa), xb),
                        (Offer(h, xa, PublicKey(xb), skey, hsA) + tail)[DH_KEY_SIZE..], MAX_PAD + 40, off)
    ensures var offer := Offer(h, xa, PublicKey(xb), skey, hsA);
            var secret := Secret(PublicKey(xb), xa);
            var inn, out := StreamKey(h, KEY_A, secret, skey), StreamKey(h, KEY_B, secret, skey);
            Acceptor(h, xb, skey, offer + tail, off) ==
            if PublicKey(xa)[0] == 0x13 then Outcome([], 0, PlaintextMode, [], None)
            else Outcome(PublicKey(xb) + Crypted(out, SelectBlock(CRYPTO_RC4)), |offer|, Rc4Mode, hsA,
                         Some(Crypto(After(out, 14), After(inn, 16 + HANDSHAKE_LEN), true)))
  {
    hide Crypted, After, Dec, XorAll, StreamKey, OfferBlock, SelectBlock, FromBE, PublicKey, Secret, AcceptStream;
    hide ScanResult;
    SharedSecret(xa, xb);
    BlockLengths();
    var ya, yb, secret := PublicKey(xa), PublicKey(xb), Secret(PublicKey(xb), xa);
    var sync, inn, out := h(REQ1 + secret), StreamKey(h, KEY_A, secret, skey), StreamKey(h, KEY_B, secret, skey);
    var obf, block := XorAll(h(REQ2 + skey), h(REQ3 + secret)), Crypted(inn, OfferBlock() + hsA);
    var u := Offer(h, xa, yb, skey, hsA) + tail;
    assert u == ya + sync + obf + block + tail;
    Parts(ya, sync, obf, block, tail);
    ScanAtStart(sync, sync + (obf + block + tail), MAX_PAD + 40, off);
    XorAllUndo(h(REQ2 + skey), h(REQ3 + secret));
    AcceptsOffer(inn, out, yb, hsA, u, DH_KEY_SIZE + 40);
  }

  /** The acceptor refuses an initiator that is after a torrent whose key has another hash. */
  lemma WrongTorrent(h: Hash, xa: nat, xb: nat, theirs: bytes, ours: bytes, hsA: bytes, tail: bytes, off: Option<nat>)
    requires PublicKey(xa)[0] != 0x13 && h(REQ2 + theirs) != h(REQ2 + ours)
    requires ScanResult(SyncPattern(h, PublicKey(xa), xb),
                        (Offer(h, xa, PublicKey(xb), theirs, hsA) + tail)[DH_KEY_SIZE..], MAX_PAD + 40, off)
    ensures Acceptor(h, xb, ours, Offer(h, xa, PublicKey(xb), theirs, hsA) + tail, off) == Failure(PublicKey(xb))
  {
    hide Crypted, After, Dec, XorAll, StreamKey, OfferBlock, SelectBlock, FromBE, PublicKey, Secret, AcceptStream;
    hide ScanResult;
    SharedSecret(xa, xb);
    var ya, yb, secret := PublicKey(xa), PublicKey(xb), Secret(PublicKey(xb), xa);
    var sync, inn := h(REQ1 + secret), StreamKey(h, KEY_A, secret, theirs);
    var obf, block := XorAll(h(REQ2 + theirs), h(REQ3 + secret)), Crypted(inn, OfferBlock() + hsA);
    var u := Offer(h, xa, yb, theirs, hsA) + tail;
    assert u == ya + sync + obf + block + tail;
    Parts(ya, sync, obf, block, tail);
    ScanAtStart(sync, sync + (obf + block + tail), MAX_PAD + 40, off);
    XorAllUndo(h(REQ2 + theirs), h(REQ3 + secret));
  }

  /** An initiator whose handshake does not have the length of one sends nothing. */
  lemma NoHandshake(h: Hash, x: nat, skey: bytes, handshake: bytes, u: bytes, off: Option<nat>)
    requires |handshake| != HANDSHAKE_LEN
    ensures Initiator(h, x, skey, handshake, u, off) == Failure([])
  {
  }

  /**
   * The whole negotiation, for all private exponents and handshakes, whatever follows it on the wire. Unless the
   * initiator's key begins with 0x13, both sides end in RC4 mode with the other's handshake, having taken exactly
   * the negotiation's bytes, and each encrypts with the stream the other decrypts with.
   */
  lemma HandshakeMeets(h: Hash, xa: nat, xb: nat, skey: bytes, hsA: bytes, hsB: bytes,
                       tailA: bytes, tailB: bytes, offA: Option<nat>, offB: Option<nat>)
    requires |hsA| == HANDSHAKE_LEN && |hsB| == HANDSHAKE_LEN
    requires ScanResult(SyncPattern(h, PublicKey(xa), xb),
                        (Offer(h, xa, PublicKey(xb), skey, hsA) + tailA)[DH_KEY_SIZE..], MAX_PAD + 40, offB)
    ensures var offer := Offer(h, xa, PublicKey(xb), skey, hsA);
            var b := Acceptor(h, xb, skey, offer + tailA, offB);
            && (b.result == Rc4Mode <==> PublicKey(xa)[0] != 0x13)
            && (b.result == Rc4Mode ==>
                  && b.handshake == hsA && b.taken == |offer| && b.crypto.Some?
                  // The acceptor's caller then sends its own handshake through the new stream.
                  && var reply := b.sent + Crypted(b.crypto.value.encrypt, hsB);
                  |reply| >= DH_KEY_SIZE &&
                  (ScanResult(VcPattern(h, PublicKey(xb), xa, skey), (reply + tailB)[DH_KEY_SIZE..], MAX_PAD + 8, offA) ==>
                     var a := Initiator(h, xa, skey, hsA, reply + tailB, offA);
                     && a.result == Rc4Mode && a.handshake == hsB && a.taken == |reply| && a.sent == offer
                     && a.crypto == Some(Crypto(b.crypto.value.decrypt,
                                                After(b.crypto.value.encrypt, HANDSHAKE_LEN), true))))
  {
    hide Crypted, After, Dec, XorAll, StreamKey, OfferBlock, SelectBlock, FromBE, PublicKey, Secret;
    hide ScanResult, InitiatorEnd, Acceptor, OfferMessage;
    AcceptorMeetsInitiator(h, xa, xb, skey, hsA, tailA, offB);
    var yb, secret := PublicKey(xb), Secret(PublicKey(xb), xa);
    var key, out := StreamKey(h, KEY_B, secret, skey), StreamKey(h, KEY_A, secret, skey);
    var select := SelectBlock(CRYPTO_RC4);
    BlockLengths();
    AfterSum(key, 14, HANDSHAKE_LEN);
    CryptedSplit(key, select, hsB);
    var block := Crypted(key, select + hsB);
    var reply := yb + Crypted(key, select) + Crypted(After(key, 14), hsB);
    assert reply == yb + block;
    VcFirst(key, hsB);
    var vc, u := Crypted(key, ZEROS8), reply + tailB;
    assert u[DH_KEY_SIZE..] == block + tailB && u[..DH_KEY_SIZE] == yb;
    assert u[DH_KEY_SIZE..DH_KEY_SIZE + 14 + HANDSHAKE_LEN] == block;
    if ScanResult(vc, u[DH_KEY_SIZE..], MAX_PAD + 8, offA) {
      ScanAtStart(vc, block + tailB, MAX_PAD + 8, offA);
      InitiatorFinishes(key, After(out, 16 + HANDSHAKE_LEN), hsB, u, DH_KEY_SIZE, Offer(h, xa, yb, skey, hsA));
    }
  }

  lemma VcFirst(key: Rc4Key, handshake: bytes)
    ensures Crypted(key, ZEROS8) <= Crypted(key, SelectBlock(CRYPTO_RC4) + handshake)
  {
    var rest := ToBE(CRYPTO_RC4, 4) + ToBE(0, 2) + handshake;
    assert SelectBlock(CRYPTO_RC4) + handshake == ZEROS8 + rest;
    CryptedSplit(key, ZEROS8, rest);
  }
}
