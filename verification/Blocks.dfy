/** Cutting pieces into blocks, and putting a piece together from blocks that arrive in any order. */
module Blocks {
  import opened Arith
  import opened Bytes
  import opened Layout

  // ---- The formulas ----

  /** The piece size as a new download and the resume loader compute it. */
  function SizeByRemainder(t: Torrent, p: nat): nat
    requires 0 < t.pieceSize
  {
    if p == t.numPieces - 1 then (if Total(t) % t.pieceSize != 0 then Total(t) % t.pieceSize else t.pieceSize)
    else t.pieceSize
  }

  /** The piece size as endgame requests and cancels compute it. */
  function SizeByDifference(t: Torrent, p: nat): int {
    if p == t.numPieces - 1 then Total(t) - p * t.pieceSize else t.pieceSize
  }

  /** The two formulas agree on every piece, and agree with the disk layer. */
  lemma SizesAgree(t: Torrent, p: nat)
    requires ValidTorrent(t) && p < t.numPieces
    ensures SizeByRemainder(t, p) == SizeByDifference(t, p) == PieceLen(t, p)
    ensures 0 < PieceLen(t, p) <= t.pieceSize
  {
    if p == t.numPieces - 1 {
      Distribute(p, 1, t.pieceSize);
      ModOfSum(p, t.pieceSize, Total(t) - p * t.pieceSize);
    }
  }

  function TotalBlocks(size: nat): nat {
    (size + BLOCK_SIZE - 1) / BLOCK_SIZE
  }

  /** The block length as a new download and a resumed download compute it. */
  function LengthByLast(size: nat, b: nat): int {
    if b == TotalBlocks(size) - 1 then size - b * BLOCK_SIZE else BLOCK_SIZE
  }

  /** The block length as endgame requests and cancels compute it. */
  function LengthByEnd(size: nat, b: nat): int {
    if b * BLOCK_SIZE + BLOCK_SIZE > size then size - b * BLOCK_SIZE else BLOCK_SIZE
  }

  /** Block b starts where block b - 1 ends, no block is empty or too long, and the last one ends with the piece. */
  lemma BlocksTile(size: nat, b: nat)
    requires b < TotalBlocks(size)
    ensures LengthByLast(size, b) == LengthByEnd(size, b)
    ensures 0 < LengthByEnd(size, b) <= BLOCK_SIZE
    ensures b * BLOCK_SIZE + LengthByEnd(size, b) == if b + 1 == TotalBlocks(size) then size else (b + 1) * BLOCK_SIZE
  {
  }

  function Length(size: nat, b: nat): nat
    requires b < TotalBlocks(size)
  {
    BlocksTile(size, b);
    LengthByEnd(size, b)
  }

  // ---- A piece in progress ----

  datatype Progress = Progress(data: bytes, flags: seq<bool>, count: nat)

  datatype Delivery = Delivery(begin: nat, block: bytes)

  function Fresh(size: nat): Progress {
    Progress(seq(size, _ => 0), seq(TotalBlocks(size), _ => false), 0)
  }

  /** Neither out of range nor a duplicate. */
  predicate Accepts(p: Progress, d: Delivery) {
    d.begin / BLOCK_SIZE < |p.flags| && !p.flags[d.begin / BLOCK_SIZE]
  }

  predicate Fits(p: Progress, d: Delivery) {
    Accepts(p, d) ==> d.begin + |d.block| <= |p.data|
  }

  /** What on_piece_block does to the piece under its lock. */
  function Delivered(p: Progress, d: Delivery): (r: Progress)
    requires Fits(p, d)
    ensures |r.data| == |p.data| && |r.flags| == |p.flags|
  {
    if Accepts(p, d)
    then Progress(Splice(p.data, d.begin, d.block), p.flags[d.begin / BLOCK_SIZE := true], p.count + 1)
    else p
  }

  /** The delivery finds the piece complete. */
  predicate Observes(p: Progress, d: Delivery) {
    Accepts(p, d) && p.count + 1 == |p.flags|
  }

  function CountTrue(flags: seq<bool>): nat {
    if flags == [] then 0
    else CountTrue(flags[..|flags| - 1]) + (if flags[|flags| - 1] then 1 else 0)
  }

  lemma {:induction false} CountSet(flags: seq<bool>, i: nat)
    requires i < |flags| && !flags[i]
    ensures CountTrue(flags[i := true]) == CountTrue(flags) + 1
  {
    var n := |flags| - 1;
    if i < n {
      CountSet(flags[..n], i);
      assert flags[i := true][..n] == flags[..n][i := true];
    } else {
      assert flags[i := true][..n] == flags[..n];
    }
  }

  lemma {:induction false} CountAll(flags: seq<bool>)
    ensures CountTrue(flags) <= |flags|
    ensures CountTrue(flags) == |flags| <==> forall i :: 0 <= i < |flags| ==> flags[i]
  {
    if flags != [] {
      var n := |flags| - 1;
      CountAll(flags[..n]);
      assert forall i :: 0 <= i < n ==> flags[i] == flags[..n][i];
    }
  }

  lemma {:induction false} CountNone(flags: seq<bool>)
    requires forall i :: 0 <= i < |flags| ==> !flags[i]
    ensures CountTrue(flags) == 0
  {
    if flags != [] {
      CountNone(flags[..|flags| - 1]);
    }
  }

  // ---- Deliveries in any order ----

  /** A block as the peer should send it: at a block boundary and exactly as long as that block. */
  predicate WellFormed(size: nat, d: Delivery) {
    && d.begin % BLOCK_SIZE == 0
    && d.begin / BLOCK_SIZE < TotalBlocks(size)
    && |d.block| == Length(size, d.begin / BLOCK_SIZE)
  }

  predicate AllWellFormed(size: nat, ds: seq<Delivery>) {
    forall k :: 0 <= k < |ds| ==> WellFormed(size, ds[k])
  }

  lemma WellFormedFits(size: nat, p: Progress, d: Delivery)
    requires WellFormed(size, d) && |p.data| == size && |p.flags| == TotalBlocks(size)
    ensures Fits(p, d)
  {
  }

  function After(size: nat, ds: seq<Delivery>): (r: Progress)
    requires AllWellFormed(size, ds)
    ensures |r.data| == size && |r.flags| == TotalBlocks(size)
  {
    if ds == [] then Fresh(size)
    else
      var n := |ds| - 1;
      var p := After(size, ds[..n]);
      WellFormedFits(size, p, ds[n]);
      Delivered(p, ds[n])
  }

  /** The first delivery of block b. */
  function FirstOf(ds: seq<Delivery>, b: nat): (k: nat)
    ensures k <= |ds|
    ensures k < |ds| ==> ds[k].begin / BLOCK_SIZE == b
    ensures forall j :: 0 <= j < k ==> ds[j].begin / BLOCK_SIZE != b
  {
    if ds == [] || ds[0].begin / BLOCK_SIZE == b then 0 else 1 + FirstOf(ds[1..], b)
  }

  /** Block b has been delivered. */
  predicate Has(ds: seq<Delivery>, b: nat) {
    FirstOf(ds, b) < |ds|
  }

  lemma FirstOfPrefix(ds: seq<Delivery>, b: nat)
    requires ds != []
    ensures var n := |ds| - 1;
            FirstOf(ds, b) == if FirstOf(ds[..n], b) < n then FirstOf(ds[..n], b)
                              else if ds[n].begin / BLOCK_SIZE == b then n else n + 1
  {
    var n := |ds| - 1;
    assert forall j :: 0 <= j < n ==> ds[..n][j] == ds[j];
  }

  /** What has been received of block b: its first delivery, if there was one. */
  ghost predicate BlockOk(size: nat, ds: seq<Delivery>, p: Progress, b: nat)
    requires |p.data| == size && |p.flags| == TotalBlocks(size) && b < TotalBlocks(size)
  {
    (p.flags[b] <==> Has(ds, b)) && (p.flags[b] ==> Tile(p, size, b) == ds[FirstOf(ds, b)].block)
  }

  function Tile(p: Progress, size: nat, b: nat): bytes
    requires |p.data| == size && b < TotalBlocks(size)
  {
    BlocksTile(size, b);
    p.data[b * BLOCK_SIZE..b * BLOCK_SIZE + Length(size, b)]
  }

  lemma TileStep(size: nat, p: Progress, d: Delivery, b: nat)
    requires WellFormed(size, d) && |p.data| == size && |p.flags| == TotalBlocks(size) && b < TotalBlocks(size)
    requires Fits(p, d) && Accepts(p, d)
    ensures Delivered(p, d).flags[b] == (p.flags[b] || d.begin / BLOCK_SIZE == b)
    ensures Tile(Delivered(p, d), size, b) == if d.begin / BLOCK_SIZE == b then d.block else Tile(p, size, b)
  {
  }

  lemma BlockStep(size: nat, ds: seq<Delivery>, b: nat)
    requires AllWellFormed(size, ds) && ds != [] && b < TotalBlocks(size)
    requires BlockOk(size, ds[..|ds| - 1], After(size, ds[..|ds| - 1]), b)
    ensures BlockOk(size, ds, After(size, ds), b)
  {
    hide FirstOf, TotalBlocks, Delivered, Tile;
    var n := |ds| - 1;
    var p, d := After(size, ds[..n]), ds[n];
    FirstOfPrefix(ds, b);
    WellFormedFits(size, p, d);
    if Accepts(p, d) {
      TileStep(size, p, d, b);
    } else {
      NotAccepted(p, d);
    }
  }

  lemma NotAccepted(p: Progress, d: Delivery)
    requires !Accepts(p, d)
    ensures Delivered(p, d) == p
  {
  }

  /**
   * Whatever the order and the duplicates: the count is the number of flags set, a flag is set if and only if its block
   * was delivered, and the bytes of a received block are those of its first delivery.
   */
  lemma {:induction false} Reassembly(size: nat, ds: seq<Delivery>)
    requires AllWellFormed(size, ds)
    ensures After(size, ds).count == CountTrue(After(size, ds).flags)
    ensures forall b :: 0 <= b < TotalBlocks(size) ==> BlockOk(size, ds, After(size, ds), b)
  {
    hide BlockOk, TotalBlocks;
    if ds == [] {
      CountNone(Fresh(size).flags);
      forall b | 0 <= b < TotalBlocks(size) ensures BlockOk(size, ds, After(size, ds), b) {
        NothingYet(size, ds, b);
      }
    } else {
      var n := |ds| - 1;
      Reassembly(size, ds[..n]);
      forall b | 0 <= b < TotalBlocks(size) ensures BlockOk(size, ds, After(size, ds), b) {
        BlockStep(size, ds, b);
      }
      var p, d := After(size, ds[..n]), ds[n];
      if Accepts(p, d) {
        CountSet(p.flags, d.begin / BLOCK_SIZE);
      }
    }
  }

  lemma NothingYet(size: nat, ds: seq<Delivery>, b: nat)
    requires ds == [] && b < TotalBlocks(size)
    ensures BlockOk(size, ds, After(size, ds), b)
  {
  }

  /** How many deliveries found the piece complete. */
  function Observations(size: nat, ds: seq<Delivery>): nat
    requires AllWellFormed(size, ds)
  {
    if ds == [] then 0
    else
      var n := |ds| - 1;
      Observations(size, ds[..n]) + (if Observes(After(size, ds[..n]), ds[n]) then 1 else 0)
  }

  predicate SameFlags(ds: seq<Delivery>, flags: seq<bool>, b: nat)
    requires b < |flags|
  {
    flags[b] <==> Has(ds, b)
  }

  lemma AllFlags(ds: seq<Delivery>, flags: seq<bool>)
    requires forall b :: 0 <= b < |flags| ==> SameFlags(ds, flags, b)
    ensures CountTrue(flags) <= |flags|
    ensures CountTrue(flags) == |flags| <==> forall b :: 0 <= b < |flags| ==> Has(ds, b)
  {
    hide Has;
    CountAll(flags);
    if forall b :: 0 <= b < |flags| ==> Has(ds, b) {
      forall i | 0 <= i < |flags| ensures flags[i] {
        assert SameFlags(ds, flags, i);
      }
    } else {
      var b :| 0 <= b < |flags| && !Has(ds, b);
      assert SameFlags(ds, flags, b);
    }
  }

  lemma AllDelivered(size: nat, ds: seq<Delivery>)
    requires AllWellFormed(size, ds)
    ensures After(size, ds).count <= TotalBlocks(size)
    ensures After(size, ds).count == TotalBlocks(size) <==>
              forall b :: 0 <= b < TotalBlocks(size) ==> Has(ds, b)
  {
    hide BlockOk, TotalBlocks, Delivered, Has;
    Reassembly(size, ds);
    var flags := After(size, ds).flags;
    forall b | 0 <= b < |flags| ensures SameFlags(ds, flags, b) {
      FlagIs(size, ds, b);
    }
    AllFlags(ds, flags);
  }

  lemma CountStep(size: nat, ds: seq<Delivery>)
    requires AllWellFormed(size, ds) && ds != []
    ensures var p, d := After(size, ds[..|ds| - 1]), ds[|ds| - 1];
            && After(size, ds).count == p.count + (if Accepts(p, d) then 1 else 0)
            && (Accepts(p, d) ==> p.count < TotalBlocks(size))
  {
    hide BlockOk, FirstOf, TotalBlocks;
    var p, d := After(size, ds[..|ds| - 1]), ds[|ds| - 1];
    Reassembly(size, ds[..|ds| - 1]);
    CountAll(p.flags);
    assert Accepts(p, d) ==> !p.flags[d.begin / BLOCK_SIZE];
  }

  /** Exactly one delivery finds the piece complete, once every block has been delivered, and none before. */
  lemma {:induction false} ObservedOnce(size: nat, ds: seq<Delivery>)
    requires AllWellFormed(size, ds) && 0 < size
    ensures Observations(size, ds) == if After(size, ds).count == TotalBlocks(size) then 1 else 0
    ensures After(size, ds).count == TotalBlocks(size) <==>
              forall b :: 0 <= b < TotalBlocks(size) ==> Has(ds, b)
  {
    hide Has, TotalBlocks, Accepts;
    AllDelivered(size, ds);
    if ds == [] {
      Empty(size);
    } else {
      ObservedOnce(size, ds[..|ds| - 1]);
      CountStep(size, ds);
    }
  }

  lemma Empty(size: nat)
    requires 0 < size
    ensures After(size, []).count == 0 < TotalBlocks(size)
  {
  }

  lemma FlagIs(size: nat, ds: seq<Delivery>, b: nat)
    requires AllWellFormed(size, ds) && b < TotalBlocks(size)
    requires BlockOk(size, ds, After(size, ds), b)
    ensures SameFlags(ds, After(size, ds).flags, b)
  {
  }

  /** The first n blocks, each as first delivered, in order. */
  function Joined(ds: seq<Delivery>, n: nat): bytes {
    if n == 0 then []
    else Joined(ds, n - 1) + (if Has(ds, n - 1) then ds[FirstOf(ds, n - 1)].block else [])
  }

  lemma {:induction false} JoinedIsPrefix(size: nat, ds: seq<Delivery>, n: nat)
    requires AllWellFormed(size, ds) && n <= TotalBlocks(size)
    requires forall b :: 0 <= b < n ==> Has(ds, b)
    ensures var end := if n == TotalBlocks(size) then size else n * BLOCK_SIZE;
            end <= size && Joined(ds, n) == After(size, ds).data[..end]
  {
    hide FirstOf, After, BlockOk;
    if n != 0 {
      var data, at := After(size, ds).data, (n - 1) * BLOCK_SIZE;
      JoinedIsPrefix(size, ds, n - 1);
      BlocksTile(size, n - 1);
      TileIs(size, ds, n - 1);
      assert data[..at] + data[at..at + Length(size, n - 1)] == data[..at + Length(size, n - 1)];
    }
  }

  lemma TileIs(size: nat, ds: seq<Delivery>, b: nat)
    requires AllWellFormed(size, ds) && b < TotalBlocks(size) && Has(ds, b)
    ensures b * BLOCK_SIZE + Length(size, b) <= size
    ensures After(size, ds).data[b * BLOCK_SIZE..b * BLOCK_SIZE + Length(size, b)] == ds[FirstOf(ds, b)].block
  {
    hide FirstOf, After;
    BlocksTile(size, b);
    Reassembly(size, ds);
    assert BlockOk(size, ds, After(size, ds), b);
  }

  /** A complete piece is its blocks in order. */
  lemma WholePiece(size: nat, ds: seq<Delivery>)
    requires AllWellFormed(size, ds) && 0 < size
    requires After(size, ds).count == TotalBlocks(size)
    ensures After(size, ds).data == Joined(ds, TotalBlocks(size))
  {
    hide FirstOf, After;
    AllDelivered(size, ds);
    JoinedIsPrefix(size, ds, TotalBlocks(size));
    assert After(size, ds).data[..size] == After(size, ds).data;
  }

  // ---- The piece as the client keeps it ----

  class InProgressPiece {
    const data: array<byte>
    const blocksReceived: array<bool>
    var receivedCount: nat

    ghost function State(): Progress
      reads this, data, blocksReceived
    {
      Progress(data[..], blocksReceived[..], receivedCount)
    }

    constructor (size: nat)
      ensures State() == Fresh(size) && fresh(data) && fresh(blocksReceived)
    {
      data := new byte[size](_ => 0);
      blocksReceived := new bool[(size + BLOCK_SIZE - 1) / BLOCK_SIZE](_ => false);
      receivedCount := 0;
    }

    /**
     * The locked part of on_piece_block: reject duplicates, copy the bytes, set the flag, count. A block that does not fit
     * would be copied past the end of the piece; what the original does then is undefined, and the model refuses it.
     */
    method OnBlock(begin: nat, block: bytes) returns (inBounds: bool, complete: bool)
      modifies this, data, blocksReceived
      ensures inBounds == Fits(old(State()), Delivery(begin, block))
      ensures inBounds ==> State() == Delivered(old(State()), Delivery(begin, block))
      ensures !inBounds ==> State() == old(State())
      ensures complete == (inBounds && Observes(old(State()), Delivery(begin, block)))
    {
      var index := begin / BLOCK_SIZE;
      if index >= blocksReceived.Length || blocksReceived[index] {
        return true, false;
      }
      if begin + |block| > data.Length {
        return false, false;
      }
      ghost var was := data[..];
      for k := 0 to |block|
        modifies data
        invariant data[..] == Splice(was, begin, block[..k])
      {
        data[begin + k] := block[k];
      }
      assert block[..|block|] == block;
      blocksReceived[index] := true;
      receivedCount := receivedCount + 1;
      return true, receivedCount == blocksReceived.Length;
    }
  }
}
