/**
 * The write-back block cache in front of the disk.
 *
 * Piece writes land in the cache as dirty blocks; dirty blocks reach the files when they are evicted or flushed.
 * The ghost field `store` is the plain byte store the cache speeds up: the class proves that every read sees
 * it, over all runs of reads, writes, evictions and flushes.
 */
module DiskCache {
  import opened Arith
  import opened Bytes
  import opened Layout

  const DISK_CACHE_SIZE: nat := 32 * 1024 * 1024

  datatype Key = Key(piece: nat, offset: nat)

  type Cache = map<Key, bytes>

  // ---- Keys and torrent addresses ----

  function Address(t: Torrent, k: Key): nat {
    PieceStart(t, k.piece) + k.offset
  }

  /** k names a block of the torrent: an aligned offset inside a piece. */
  predicate IsBlock(t: Torrent, k: Key)
    requires 0 < t.pieceSize
  {
    k.piece < t.numPieces && k.offset % BLOCK_SIZE == 0 && k.offset < PieceLen(t, k.piece)
  }

  function BlockLen(t: Torrent, k: Key): nat
    requires 0 < t.pieceSize && IsBlock(t, k)
  {
    var left := PieceLen(t, k.piece) - k.offset;
    if left < BLOCK_SIZE then left else BLOCK_SIZE
  }

  /** The block that torrent address a belongs to. */
  function KeyOf(t: Torrent, a: nat): Key
    requires 0 < t.pieceSize
  {
    var r := a % t.pieceSize;
    Key(a / t.pieceSize, r / BLOCK_SIZE * BLOCK_SIZE)
  }

  /** The addresses of block k, and only those, belong to it. */
  lemma KeyOfBlock(t: Torrent, k: Key, a: nat)
    requires ValidTorrent(t) && IsBlock(t, k) && a < Total(t)
    ensures KeyOf(t, a) == k <==> Address(t, k) <= a < Address(t, k) + BlockLen(t, k)
    ensures Address(t, k) + BlockLen(t, k) <= Total(t)
  {
    hide ValidTorrent, PieceLen, Total;
    PieceBounds(t, k.piece);
    PieceOf(t, k.piece, a);
  }

  lemma PieceOf(t: Torrent, p: nat, a: nat)
    requires ValidTorrent(t) && p < t.numPieces && a < Total(t)
    ensures a / t.pieceSize == p <==> PieceStart(t, p) <= a < PieceStart(t, p) + PieceLen(t, p)
    ensures a / t.pieceSize == p ==> a % t.pieceSize == a - PieceStart(t, p)
  {
    hide ValidTorrent, PieceLen, Total;
    PieceBounds(t, p);
    DivBounds(a, t.pieceSize);
    assert (p + 1) * t.pieceSize == p * t.pieceSize + t.pieceSize;
    if p * t.pieceSize <= a < p * t.pieceSize + t.pieceSize {
      DivModUnique(a, t.pieceSize, p, a - p * t.pieceSize);
    }
  }

  /** Every address belongs to a block. */
  lemma KeyOfIsBlock(t: Torrent, p: nat, a: nat)
    requires ValidTorrent(t) && p < t.numPieces && PieceStart(t, p) <= a < PieceStart(t, p) + PieceLen(t, p)
    ensures IsBlock(t, KeyOf(t, a)) && KeyOf(t, a).piece == p
    ensures Address(t, KeyOf(t, a)) <= a < Address(t, KeyOf(t, a)) + BlockLen(t, KeyOf(t, a))
  {
    hide ValidTorrent, PieceLen, Total;
    PieceBounds(t, p);
    PieceOf(t, p, a);
  }

  // ---- The logical store ----

  function Slice(store: bytes, a: nat, n: nat): (r: bytes)
    requires a + n <= |store|
    ensures |r| == n && forall k :: 0 <= k < n ==> r[k] == store[a + k]
  {
    store[a..a + n]
  }

  /** Every selected byte on disk that no dirty block covers is the store's byte. */
  ghost predicate DiskOk(t: Torrent, disk: Disk, store: bytes, dirty: set<Key>)
    requires 0 < t.pieceSize && ValidDisk(t, disk) && |store| == Total(t)
  {
    forall i: nat, o: nat {:trigger disk[i][o]} :: i < |disk| && o < |disk[i]| ==>
      ByteOk(t, disk[i][o], i, o, store, dirty)
  }

  ghost predicate ByteOk(t: Torrent, x: byte, i: nat, o: nat, store: bytes, dirty: set<Key>)
    requires 0 < t.pieceSize && i < |t.files|
  {
    var a := FileStart(t.files, i) + o;
    t.files[i].download && KeyOf(t, a) !in dirty && a < |store| ==> x == store[a]
  }

  /** A cached entry: aligned, inside its piece, and equal to the store. */
  ghost predicate EntryOk(t: Torrent, store: bytes, k: Key, data: bytes)
    requires 0 < t.pieceSize
  {
    && k.piece < t.numPieces
    && k.offset % BLOCK_SIZE == 0
    && k.offset + |data| <= PieceLen(t, k.piece)
    && Address(t, k) + |data| <= |store|
    && data == Slice(store, Address(t, k), |data|)
  }

  /** Cache and disk together hold the store; dirty blocks are whole blocks. */
  ghost predicate Coherent(t: Torrent, disk: Disk, store: bytes, cache: Cache, dirty: set<Key>)
    requires 0 < t.pieceSize
  {
    && ValidDisk(t, disk)
    && |store| == Total(t)
    && (forall k :: k in cache ==> EntryOk(t, store, k, cache[k]))
    && dirty <= cache.Keys
    && (forall k :: k in dirty ==> IsBlock(t, k) && |cache[k]| == BlockLen(t, k))
    && DiskOk(t, disk, store, dirty)
  }

  /** Writing a dirty block back makes it clean. */
  lemma WriteBackOk(t: Torrent, disk: Disk, disk': Disk, store: bytes, dirty: set<Key>, k: Key, data: bytes)
    requires ValidTorrent(t) && ValidDisk(t, disk) && |store| == Total(t)
    requires DiskOk(t, disk, store, dirty) && IsBlock(t, k) && |data| == BlockLen(t, k)
    requires EntryOk(t, store, k, data) && Written(t, disk, disk', Address(t, k), data)
    ensures DiskOk(t, disk', store, dirty - {k})
  {
    forall i: nat, o: nat | i < |disk'| && o < |disk'[i]| ensures ByteOk(t, disk'[i][o], i, o, store, dirty - {k}) {
      assert ByteOk(t, disk[i][o], i, o, store, dirty);
      var a := FileStart(t.files, i) + o;
      if a < Total(t) {
        KeyOfBlock(t, k, a);
      }
    }
  }

  lemma WriteBack(t: Torrent, disk: Disk, disk': Disk, store: bytes, cache: Cache, dirty: set<Key>, k: Key)
    requires ValidTorrent(t) && Coherent(t, disk, store, cache, dirty) && k in dirty
    requires Written(t, disk, disk', Address(t, k), cache[k])
    ensures Coherent(t, disk', store, cache, dirty - {k})
  {
    hide ValidTorrent, PieceLen, DiskOk, EntryOk, IsBlock, BlockLen, PieceStart;
    WriteBackOk(t, disk, disk', store, dirty, k, cache[k]);
  }

  lemma CoherentKey(t: Torrent, disk: Disk, store: bytes, cache: Cache, dirty: set<Key>, k: Key)
    requires ValidTorrent(t) && Coherent(t, disk, store, cache, dirty) && k in dirty
    ensures 0 < t.pieceSize && ValidDisk(t, disk) && k in cache
    ensures k.piece < t.numPieces && k.offset + |cache[k]| <= PieceLen(t, k.piece)
  {
    assert EntryOk(t, store, k, cache[k]);
  }

  /** Changing one block of the store is invisible to the disk invariant once that block is dirty. */
  lemma StoreBlockDisk(t: Torrent, disk: Disk, store: bytes, dirty: set<Key>, k: Key, data: bytes)
    requires ValidTorrent(t) && ValidDisk(t, disk) && |store| == Total(t)
    requires DiskOk(t, disk, store, dirty) && IsBlock(t, k) && |data| == BlockLen(t, k)
    requires Address(t, k) + |data| <= |store|
    ensures DiskOk(t, disk, Splice(store, Address(t, k), data), dirty + {k})
  {
    var store' := Splice(store, Address(t, k), data);
    forall i: nat, o: nat | i < |disk| && o < |disk[i]| ensures ByteOk(t, disk[i][o], i, o, store', dirty + {k}) {
      assert ByteOk(t, disk[i][o], i, o, store, dirty);
      var a := FileStart(t.files, i) + o;
      if a < Total(t) {
        KeyOfBlock(t, k, a);
      }
    }
  }

  /** An entry that does not overlap the changed block still equals the store. */
  lemma StoreBlockEntry(t: Torrent, store: bytes, k: Key, data: bytes, k': Key, data': bytes)
    requires ValidTorrent(t) && |store| == Total(t)
    requires IsBlock(t, k) && |data| == BlockLen(t, k) && Address(t, k) + |data| <= |store|
    requires EntryOk(t, store, k', data') && k' != k
    requires k'.piece == k.piece && k'.offset < k.offset ==> k'.offset + |data'| <= k.offset
    ensures EntryOk(t, Splice(store, Address(t, k), data), k', data')
  {
    PieceBounds(t, k.piece);
    PieceBounds(t, k'.piece);
    if k'.piece < k.piece {
      MulMono(k'.piece + 1, k.piece, t.pieceSize);
      assert (k'.piece + 1) * t.pieceSize == PieceStart(t, k'.piece) + t.pieceSize;
    } else if k.piece < k'.piece {
      MulMono(k.piece + 1, k'.piece, t.pieceSize);
      assert (k.piece + 1) * t.pieceSize == PieceStart(t, k.piece) + t.pieceSize;
    }
  }

  /** No dirty block meets the n bytes at offset `begin` of piece p. */
  ghost predicate Clean(t: Torrent, dirty: set<Key>, p: nat, begin: nat, n: nat)
    requires 0 < t.pieceSize && forall k :: k in dirty ==> IsBlock(t, k)
  {
    forall k :: k in dirty && k.piece == p ==> begin + n <= k.offset || k.offset + BlockLen(t, k) <= begin
  }

  /** What the disk returns for a clean stretch is what the store holds. */
  lemma CleanRead(t: Torrent, disk: Disk, store: bytes, dirty: set<Key>, p: nat, begin: nat, r: bytes)
    requires ValidTorrent(t) && ValidDisk(t, disk) && |store| == Total(t) && DiskOk(t, disk, store, dirty)
    requires p < t.numPieces && begin + |r| <= PieceLen(t, p)
    requires (forall k :: k in dirty ==> IsBlock(t, k)) && Clean(t, dirty, p, begin, |r|)
    requires Readable(t, PieceStart(t, p) + begin, |r|) && ReadsAs(t, disk, PieceStart(t, p) + begin, r)
    ensures PieceStart(t, p) + begin + |r| <= |store|
    ensures r == Slice(store, PieceStart(t, p) + begin, |r|)
  {
    hide ValidTorrent, PieceLen, FileStart, KeyOf, IsBlock, BlockLen, PieceStart, Clean;
    PieceBounds(t, p);
    TotalIs(t);
    var base := PieceStart(t, p) + begin;
    forall j | 0 <= j < |r| ensures r[j] == store[base + j] {
      var i, o := Locate(t.files, |t.files|, base + j);
      assert Meets(t, i, base, |r|);
      assert SameByte(t, disk[i][o], i, o, base, r) && ByteOk(t, disk[i][o], i, o, store, dirty);
      CleanByte(t, dirty, p, begin, |r|, j);
    }
  }

  lemma TotalIs(t: Torrent)
    ensures FileStart(t.files, |t.files|) == Total(t)
  {
  }

  lemma CleanByte(t: Torrent, dirty: set<Key>, p: nat, begin: nat, n: nat, j: nat)
    requires ValidTorrent(t) && p < t.numPieces && begin + n <= PieceLen(t, p) && j < n
    requires (forall k :: k in dirty ==> IsBlock(t, k)) && Clean(t, dirty, p, begin, n)
    ensures KeyOf(t, PieceStart(t, p) + begin + j) !in dirty
  {
    hide ValidTorrent, PieceLen, KeyOf, IsBlock, BlockLen;
    KeyOfIsBlock(t, p, PieceStart(t, p) + begin + j);
  }

  /** A clean entry can be dropped. */
  lemma DropEntry(t: Torrent, disk: Disk, store: bytes, cache: Cache, dirty: set<Key>, k: Key)
    requires 0 < t.pieceSize && Coherent(t, disk, store, cache, dirty) && k !in dirty
    ensures Coherent(t, disk, store, cache - {k}, dirty)
  {
  }

  /** Storing block k in the cache as dirty, while the store takes the same bytes. */
  lemma StoreBlock(t: Torrent, disk: Disk, store: bytes, cache: Cache, dirty: set<Key>, k: Key, data: bytes)
    requires ValidTorrent(t) && Coherent(t, disk, store, cache, dirty)
    requires IsBlock(t, k) && |data| == BlockLen(t, k) && Address(t, k) + |data| <= |store|
    requires NoOverhang(cache, k)
    ensures Coherent(t, disk, Splice(store, Address(t, k), data), cache[k := data], dirty + {k})
  {
    var store' := Splice(store, Address(t, k), data);
    StoreBlockDisk(t, disk, store, dirty, k, data);
    forall k' | k' in cache && k' != k ensures EntryOk(t, store', k', cache[k']) {
      StoreBlockEntry(t, store, k, data, k', cache[k']);
    }
    assert EntryOk(t, store', k, data);
  }

  /** No entry that starts before block k in the same piece reaches into it. */
  ghost predicate NoOverhang(cache: Cache, k: Key) {
    forall k' :: k' in cache && k'.piece == k.piece && k'.offset < k.offset ==> k'.offset + |cache[k']| <= k.offset
  }

  /** A read from a block boundary inside its piece. */
  predicate Aligned(t: Torrent, p: nat, begin: nat, n: nat)
    requires 0 < t.pieceSize
  {
    begin % BLOCK_SIZE == 0 && begin + n <= PieceLen(t, p)
  }

  /** Everything is right but what is under this key: its entry, and whether the files hold its block. */
  ghost predicate CoherentBut(t: Torrent, disk: Disk, store: bytes, cache: Cache, dirty: set<Key>, key: Key)
    requires 0 < t.pieceSize
  {
    && ValidDisk(t, disk)
    && |store| == Total(t)
    && (forall k :: k in cache && k != key ==> EntryOk(t, store, k, cache[k]))
    && dirty <= cache.Keys && key !in dirty
    && (forall k :: k in dirty ==> IsBlock(t, k) && |cache[k]| == BlockLen(t, k))
    && DiskOk(t, disk, store, dirty + {key})
  }

  /** What is left to be right about the key. */
  lemma CoherentIff(t: Torrent, disk: Disk, store: bytes, cache: Cache, dirty: set<Key>, key: Key)
    requires 0 < t.pieceSize && CoherentBut(t, disk, store, cache, dirty, key) && key in cache
    ensures Coherent(t, disk, store, cache, dirty) <==>
              EntryOk(t, store, key, cache[key]) && DiskOk(t, disk, store, dirty)
  {
  }

  /** Overwriting an entry and forgetting its dirty mark. */
  lemma OneEntry(t: Torrent, disk: Disk, store: bytes, cache: Cache, dirty: set<Key>, key: Key, block: bytes)
    requires 0 < t.pieceSize && Coherent(t, disk, store, cache, dirty)
    ensures CoherentBut(t, disk, store, cache[key := block], dirty - {key}, key)
    ensures key !in dirty ==> DiskOk(t, disk, store, dirty - {key})
    ensures key !in dirty && EntryOk(t, store, key, block) ==> Coherent(t, disk, store, cache[key := block], dirty - {key})
  {
    assert key !in dirty ==> dirty - {key} == dirty;
    assert dirty <= dirty - {key} + {key};
  }

  lemma ReadEntry(t: Torrent, store: bytes, p: nat, begin: nat, block: bytes)
    requires ValidTorrent(t) && p < t.numPieces && begin % BLOCK_SIZE == 0 && begin + |block| <= PieceLen(t, p)
    requires PieceStart(t, p) + begin + |block| <= |store| && block == Slice(store, PieceStart(t, p) + begin, |block|)
    ensures 0 < t.pieceSize && EntryOk(t, store, Key(p, begin), block)
  {
  }

  lemma CoherentFacts(t: Torrent, disk: Disk, store: bytes, cache: Cache, dirty: set<Key>)
    requires 0 < t.pieceSize && Coherent(t, disk, store, cache, dirty)
    ensures |store| == Total(t) && ValidDisk(t, disk) && DiskOk(t, disk, store, dirty)
    ensures forall k :: k in cache ==> k.offset % BLOCK_SIZE == 0
    ensures forall k :: k in dirty ==> k in cache && IsBlock(t, k) && |cache[k]| == BlockLen(t, k)
  {
  }

  lemma SpliceExtend<T>(s: seq<T>, a: nat, d: seq<T>, n: nat, m: nat)
    requires n <= m <= |d| && a + |d| <= |s|
    ensures Splice(Splice(s, a, d[..n]), a + n, d[n..m]) == Splice(s, a, d[..m])
  {
  }

  lemma HitSlice(t: Torrent, disk: Disk, store: bytes, cache: Cache, dirty: set<Key>, k: Key, n: nat)
    requires 0 < t.pieceSize && Coherent(t, disk, store, cache, dirty) && k in cache && n <= |cache[k]|
    ensures Address(t, k) + n <= |store| && cache[k][..n] == Slice(store, Address(t, k), n)
  {
  }

  /** A clean read that misses does not start at a dirty block. */
  lemma CleanKey(t: Torrent, cache: Cache, dirty: set<Key>, k: Key, n: nat)
    requires 0 < t.pieceSize && forall d :: d in dirty ==> d in cache && IsBlock(t, d)
    requires Clean(t, dirty, k.piece, k.offset, n) && !(k in cache && n <= |cache[k]|)
    ensures k !in dirty
  {
  }

  /** Every entry is exactly its block. */
  predicate WholeBlocks(t: Torrent, cache: Cache)
    requires 0 < t.pieceSize
  {
    forall k :: k in cache ==> IsBlock(t, k) && |cache[k]| == BlockLen(t, k)
  }

  lemma BlockAt(t: Torrent, p: nat, offset: nat)
    requires ValidTorrent(t) && p < t.numPieces && offset % BLOCK_SIZE == 0 && offset < PieceLen(t, p)
    ensures IsBlock(t, Key(p, offset))
    ensures var left := PieceLen(t, p) - offset;
            BlockLen(t, Key(p, offset)) == if BLOCK_SIZE < left then BLOCK_SIZE else left
    ensures Address(t, Key(p, offset)) == PieceStart(t, p) + offset
    ensures PieceStart(t, p) + PieceLen(t, p) <= Total(t)
  {
    PieceBounds(t, p);
  }

  /** The entries of piece p that start below offset end there. */
  ghost predicate EndBy(cache: Cache, p: nat, offset: nat) {
    forall k :: k in cache && k.piece == p && k.offset < offset ==> k.offset + |cache[k]| <= offset
  }

  lemma EndByZero(cache: Cache, p: nat)
    ensures EndBy(cache, p, 0)
  {
  }

  lemma EndByStep(cache: Cache, cache': Cache, p: nat, offset: nat, size: nat)
    requires EndBy(cache, p, offset) && offset % BLOCK_SIZE == 0 && size <= BLOCK_SIZE
    requires forall k :: k in cache' ==> k.offset % BLOCK_SIZE == 0
    requires forall k :: k in cache' && k != Key(p, offset) ==> k in cache && cache'[k] == cache[k]
    requires Key(p, offset) in cache' && |cache'[Key(p, offset)]| == size
    ensures EndBy(cache', p, offset + BLOCK_SIZE)
  {
  }

  /** A read of at most one block never meets a dirty block it does not hit. */
  lemma BlockReadSafe(t: Torrent, cache: Cache, dirty: set<Key>, k: Key, n: nat)
    requires 0 < t.pieceSize && IsBlock(t, k) && n <= BlockLen(t, k)
    requires forall d :: d in dirty ==> d in cache && IsBlock(t, d) && |cache[d]| == BlockLen(t, d)
    ensures (k in cache && n <= |cache[k]|) || Clean(t, dirty, k.piece, k.offset, n)
  {
  }

  // ---- The recency list ----

  predicate Distinct(ks: seq<Key>) {
    forall i, j :: 0 <= i < j < |ks| ==> ks[i] != ks[j]
  }

  /** The recency list, its index and the cache hold the same keys, each once. */
  ghost predicate ListOk(lru: seq<Key>, index: set<Key>, cache: Cache) {
    Distinct(lru) && (forall k :: k in lru <==> k in cache) && index == cache.Keys
  }

  /** ks without the key k. */
  function Without(ks: seq<Key>, k: Key): (r: seq<Key>)
    ensures forall x :: x in r <==> x in ks && x != k
    ensures Distinct(ks) ==> Distinct(r)
    ensures k !in ks ==> r == ks
  {
    if ks == [] then []
    else
      assert ks == [ks[0]] + ks[1..];
      assert Distinct(ks) ==> ks[0] !in ks[1..] && Distinct(ks[1..]);
      var rest := Without(ks[1..], k);
      assert forall i :: 0 <= i < |rest| ==> rest[i] in rest;
      if ks[0] == k then rest else [ks[0]] + rest
  }

  /** The bytes held under the given keys. */
  function Sum(ks: seq<Key>, cache: Cache): nat
    requires forall k :: k in ks ==> k in cache
  {
    if ks == [] then 0 else |cache[ks[0]]| + Sum(ks[1..], cache)
  }

  lemma {:induction false} SumSame(ks: seq<Key>, c: Cache, d: Cache)
    requires forall k :: k in ks ==> k in c && k in d && c[k] == d[k]
    ensures Sum(ks, c) == Sum(ks, d)
  {
    if ks != [] {
      SumSame(ks[1..], c, d);
    }
  }

  lemma {:induction false} SumWithout(ks: seq<Key>, c: Cache, k: Key)
    requires Distinct(ks) && (forall x :: x in ks ==> x in c) && k in ks
    ensures Sum(ks, c) == |c[k]| + Sum(Without(ks, k), c)
  {
    assert ks == [ks[0]] + ks[1..];
    if ks[0] == k {
      assert Without(ks[1..], k) == ks[1..];
    } else {
      SumWithout(ks[1..], c, k);
      var r := Without(ks, k);
      assert r[1..] == Without(ks[1..], k);
    }
  }

  lemma {:induction false} SumSnoc(ks: seq<Key>, k: Key, c: Cache)
    requires (forall x :: x in ks ==> x in c) && k in c
    ensures forall x :: x in ks + [k] ==> x in c
    ensures Sum(ks + [k], c) == Sum(ks, c) + |c[k]|
  {
    if ks == [] {
      assert (ks + [k])[1..] == [];
    } else {
      SumSnoc(ks[1..], k, c);
      assert (ks + [k])[1..] == ks[1..] + [k];
    }
  }

  /** Putting an entry under key k and moving k to the front. */
  lemma InsertFront(lru: seq<Key>, index: set<Key>, cache: Cache, k: Key, data: bytes)
    requires ListOk(lru, index, cache)
    ensures var lru', cache' := [k] + Without(lru, k), cache[k := data];
            && ListOk(lru', index + {k}, cache')
            && Sum(lru', cache') + (if k in cache then |cache[k]| else 0) == Sum(lru, cache) + |data|
  {
    var rest := Without(lru, k);
    var lru', cache' := [k] + rest, cache[k := data];
    assert lru'[1..] == rest;
    SumSame(rest, cache, cache');
    if k in cache {
      SumWithout(lru, cache, k);
    }
  }

  lemma InsertFrontSum(lru: seq<Key>, index: set<Key>, cache: Cache, k: Key)
    requires ListOk(lru, index, cache)
    ensures k in cache ==> |cache[k]| <= Sum(lru, cache)
  {
    if k in cache {
      SumWithout(lru, cache, k);
    }
  }

  lemma TouchHit(lru: seq<Key>, index: set<Key>, cache: Cache, k: Key)
    requires ListOk(lru, index, cache) && k in cache
    ensures ListOk([k] + Without(lru, k), index + {k}, cache)
    ensures Sum([k] + Without(lru, k), cache) == Sum(lru, cache)
  {
    InsertFront(lru, index, cache, k, cache[k]);
    assert cache[k := cache[k]] == cache;
  }

  lemma ListKeys(lru: seq<Key>, index: set<Key>, cache: Cache)
    requires ListOk(lru, index, cache)
    ensures Distinct(lru) && index == cache.Keys && forall k :: k in lru <==> k in index
    ensures lru == [] ==> Sum(lru, cache) == 0
  {
  }

  /** Dropping the least recent key and its entry. */
  lemma DropLast(lru: seq<Key>, index: set<Key>, cache: Cache)
    requires ListOk(lru, index, cache) && lru != []
    ensures var init, k := lru[..|lru| - 1], lru[|lru| - 1];
            && k in cache
            && ListOk(init, index - {k}, cache - {k})
            && Sum(init, cache - {k}) + |cache[k]| == Sum(lru, cache)
  {
    var init, k := lru[..|lru| - 1], lru[|lru| - 1];
    assert lru == init + [k];
    forall x ensures x in init <==> x in cache - {k} {
      if x in init {
        var j :| 0 <= j < |init| && init[j] == x;
        assert lru[j] == x;
      }
    }
    SumSnoc(init, k, cache);
    SumSame(init, cache, cache - {k});
  }

  // ---- The files as one run of bytes ----

  function Flat(disk: Disk, n: nat): bytes
    requires n <= |disk|
  {
    if n == 0 then [] else Flat(disk, n - 1) + disk[n - 1]
  }

  lemma {:induction false} FlatLen(t: Torrent, disk: Disk, n: nat)
    requires ValidDisk(t, disk) && n <= |disk|
    ensures |Flat(disk, n)| == FileStart(t.files, n)
  {
    if n != 0 {
      FlatLen(t, disk, n - 1);
    }
  }

  lemma {:induction false} FlatAt(t: Torrent, disk: Disk, n: nat, i: nat, o: nat)
    requires ValidDisk(t, disk) && i < n <= |disk| && o < |disk[i]|
    ensures FileStart(t.files, i) + o < |Flat(disk, n)|
    ensures Flat(disk, n)[FileStart(t.files, i) + o] == disk[i][o]
  {
    FlatLen(t, disk, n - 1);
    if i < n - 1 {
      FlatAt(t, disk, n - 1, i, o);
    }
  }

  lemma FlatDiskOk(t: Torrent, disk: Disk)
    requires 0 < t.pieceSize && ValidDisk(t, disk)
    ensures |Flat(disk, |disk|)| == Total(t) && DiskOk(t, disk, Flat(disk, |disk|), {})
  {
    FlatLen(t, disk, |disk|);
    forall i: nat, o: nat | i < |disk| && o < |disk[i]|
      ensures ByteOk(t, disk[i][o], i, o, Flat(disk, |disk|), {})
    {
      FlatAt(t, disk, |disk|, i, o);
    }
  }

  predicate AllSelected(t: Torrent) {
    forall i :: 0 <= i < |t.files| ==> t.files[i].download
  }

  /** With nothing dirty and nothing deselected, the files are the store. */
  lemma CleanDiskIsStore(t: Torrent, disk: Disk, store: bytes)
    requires 0 < t.pieceSize && ValidDisk(t, disk) && |store| == Total(t) && DiskOk(t, disk, store, {})
    requires AllSelected(t)
    ensures Flat(disk, |disk|) == store
  {
    FlatLen(t, disk, |disk|);
    var flat := Flat(disk, |disk|);
    forall a | 0 <= a < |flat| ensures flat[a] == store[a] {
      var i, o := Locate(t.files, |t.files|, a);
      FlatAt(t, disk, |disk|, i, o);
      assert ByteOk(t, disk[i][o], i, o, store, {});
    }
  }

  // ---- The cache ----

  /** The key is the most recent; behind it stand the others in their order, perhaps fewer than there were. */
  ghost predicate MovedToFront(before: seq<Key>, after: seq<Key>, key: Key) {
    exists n: nat :: n <= |before| && after == [key] + Without(before[..n], key)
  }

  lemma Fronted(before: seq<Key>, kept: seq<Key>, after: seq<Key>, key: Key)
    requires kept <= before && after == [key] + Without(kept, key)
    ensures MovedToFront(before, after, key)
  {
    assert kept == before[..|kept|];
  }

  class FileManager {
    const t: Torrent
    const pieceToFiles: seq<seq<Overlap>>
    var disk: Disk
    var cache: Cache
    var lruOrder: seq<Key>
    var lruIndex: set<Key>
    var dirty: set<Key>
    var currentSize: nat
    /** The plain byte store this cache stands for. */
    ghost var store: bytes
    /** Bytes counted in currentSize beyond what the entries hold. */
    ghost var drift: nat

    /** The recency list, the size counter and the overlap table are right, whatever the entries hold. */
    ghost predicate Structure()
      reads this
    {
      && ValidTorrent(t)
      && |pieceToFiles| == t.numPieces
      && (forall p :: 0 <= p < t.numPieces ==> Tiles(t, p, pieceToFiles[p], PieceLen(t, p)))
      && ListOk(lruOrder, lruIndex, cache)
      && currentSize == Sum(lruOrder, cache) + drift
    }

    ghost predicate Valid()
      reads this
    {
      Structure() && Coherent(t, disk, store, cache, dirty)
    }

    /** The size counter exceeds the limit by at most one entry of the given size. */
    ghost predicate Bounded(entry: nat)
      reads this
    {
      currentSize <= (if drift < DISK_CACHE_SIZE then DISK_CACHE_SIZE else drift) + entry
    }

    constructor (t: Torrent, disk: Disk)
      requires ValidTorrent(t) && ValidDisk(t, disk)
      ensures Valid() && this.t == t && this.disk == disk
      ensures store == Flat(disk, |disk|) && cache == map[] && dirty == {} && drift == 0
    {
      var p2f, _ := BuildMaps(t);
      this.t, pieceToFiles := t, p2f;
      this.disk := disk;
      cache, lruOrder, lruIndex, dirty, currentSize := map[], [], {}, {}, 0;
      store, drift := Flat(disk, |disk|), 0;
      FlatDiskOk(t, disk);
    }

    /** touch_cache: k moves or comes to the most recent end; list, index and cache have the same keys, each once. */
    method TouchCache(k: Key)
      requires Distinct(lruOrder) && (forall x :: x in lruOrder <==> x in lruIndex) && cache.Keys == lruIndex + {k}
      modifies this`lruOrder, this`lruIndex
      ensures lruOrder == [k] + Without(old(lruOrder), k) && lruIndex == old(lruIndex) + {k}
      ensures ListOk(lruOrder, lruIndex, cache)
    {
      if k in lruIndex {
        lruOrder := Without(lruOrder, k);
      }
      lruOrder := [k] + lruOrder;
      lruIndex := lruIndex + {k};
    }

    /** Drop the least recent entry, writing it back first if it is dirty. */
    method EvictOne()
      requires Valid() && lruOrder != []
      modifies this`disk, this`cache, this`lruOrder, this`lruIndex, this`dirty, this`currentSize
      ensures Valid()
      ensures var key := old(lruOrder)[|old(lruOrder)| - 1];
              && key in old(cache)
              && lruOrder == old(lruOrder)[..|old(lruOrder)| - 1]
              && cache == old(cache) - {key}
              && dirty == old(dirty) - {key}
              && currentSize + |old(cache)[key]| == old(currentSize)
    {
      hide Coherent, ListOk, Tiles, Sum;
      var key := lruOrder[|lruOrder| - 1];
      DropLast(lruOrder, lruIndex, cache);
      if key in dirty {
        SyncWriteBlock(key);
      }
      DropEntry(t, disk, store, cache, dirty, key);
      lruOrder := lruOrder[..|lruOrder| - 1];
      lruIndex := lruIndex - {key};
      currentSize := currentSize - |cache[key]|;
      cache := cache - {key};
    }

    /**
     * evict_if_needed: while the cache is over its size, drop the least recent entry. The entries that stay are
     * the most recent ones, unchanged, and no more are dropped than needed.
     */
    method EvictIfNeeded()
      requires Valid()
      modifies this`disk, this`cache, this`lruOrder, this`lruIndex, this`dirty, this`currentSize
      ensures Valid()
      ensures lruOrder <= old(lruOrder)
      ensures forall k :: k in cache ==> k in old(cache) && cache[k] == old(cache)[k]
      ensures dirty <= old(dirty) && forall k :: k in cache && k in old(dirty) ==> k in dirty
      ensures currentSize <= DISK_CACHE_SIZE || lruOrder == []
      ensures |lruOrder| < |old(lruOrder)| ==>
                var k := old(lruOrder)[|lruOrder|];
                k in old(cache) && DISK_CACHE_SIZE < currentSize + |old(cache)[k]|
    {
      hide *;
      while currentSize > DISK_CACHE_SIZE && lruOrder != []
        invariant Valid()
        invariant lruOrder <= old(lruOrder)
        invariant forall k :: k in cache ==> k in old(cache) && cache[k] == old(cache)[k]
        invariant dirty <= old(dirty) && forall k :: k in cache && k in old(dirty) ==> k in dirty
        invariant |lruOrder| < |old(lruOrder)| ==>
                    var k := old(lruOrder)[|lruOrder|];
                    k in old(cache) && DISK_CACHE_SIZE < currentSize + |old(cache)[k]|
        decreases |lruOrder|
      {
        EvictOne();
      }
    }

    /** Write a dirty block through the overlap table; it is clean afterwards. */
    method SyncWriteBlock(key: Key)
      requires Valid() && key in dirty
      modifies this`disk, this`dirty
      ensures Valid() && dirty == old(dirty) - {key}
      ensures Written(t, old(disk), disk, Address(t, key), cache[key])
    {
      hide Coherent, ListOk, Tiles, Sum, PieceLen, DiskOk, ValidDisk, ValidTorrent, PieceStart, Written;
      CoherentKey(t, disk, store, cache, dirty, key);
      var before := disk;
      disk := WriteBlock(t, pieceToFiles[key.piece], disk, key.piece, key.offset, cache[key]);
      WriteBack(t, before, disk, store, cache, dirty, key);
      dirty := dirty - {key};
    }

    /** The cache part of one block write: evict, replace the entry, mark it dirty. */
    method PutDirty(key: Key, block: bytes)
      requires Valid() && IsBlock(t, key) && |block| == BlockLen(t, key) && Address(t, key) + |block| <= |store|
      requires NoOverhang(cache, key)
      modifies this
      ensures Valid() && drift == old(drift) && Bounded(BLOCK_SIZE)
      ensures store == Splice(old(store), Address(t, key), block)
      ensures key in cache && cache[key] == block && key in dirty
      ensures forall k :: k in cache && k != key ==> k in old(cache) && cache[k] == old(cache)[k]
      ensures MovedToFront(old(lruOrder), lruOrder, key)
    {
      hide Coherent, ListOk, Tiles, Sum, EntryOk, DiskOk, MovedToFront, Without;
      EvictIfNeeded();
      ghost var kept := lruOrder;
      ListKeys(lruOrder, lruIndex, cache);
      StoreBlock(t, disk, store, cache, dirty, key, block);
      InsertFront(lruOrder, lruIndex, cache, key, block);
      InsertFrontSum(lruOrder, lruIndex, cache, key);
      store := Splice(store, Address(t, key), block);
      if key in cache {
        currentSize := currentSize - |cache[key]|;
      }
      cache := cache[key := block];
      TouchCache(key);
      currentSize := currentSize + |block|;
      dirty := dirty + {key};
      Fronted(old(lruOrder), kept, lruOrder, key);
    }

    /** One block of a piece write. */
    method PutPieceBlock(p: nat, offset: nat, block: bytes)
      requires Valid() && p < t.numPieces && offset % BLOCK_SIZE == 0 && offset < PieceLen(t, p)
      requires |block| == if BLOCK_SIZE < PieceLen(t, p) - offset then BLOCK_SIZE else PieceLen(t, p) - offset
      requires EndBy(cache, p, offset)
      modifies this
      ensures Valid() && drift == old(drift) && Bounded(BLOCK_SIZE) && EndBy(cache, p, offset + BLOCK_SIZE)
      ensures PieceStart(t, p) + offset + |block| <= |old(store)|
      ensures store == Splice(old(store), PieceStart(t, p) + offset, block)
      ensures old(WholeBlocks(t, cache)) ==> WholeBlocks(t, cache)
    {
      hide Coherent, ListOk, Tiles, Sum, PieceLen, IsBlock, BlockLen, Splice, Address, PieceStart;
      CoherentFacts(t, disk, store, cache, dirty);
      ghost var before := cache;
      BlockAt(t, p, offset);
      PutDirty(Key(p, offset), block);
      CoherentFacts(t, disk, store, cache, dirty);
      EndByStep(before, cache, p, offset, |block|);
    }

    /** write_piece: the piece enters the cache block by block, and the store takes it as a whole. */
    method WritePiece(p: nat, data: bytes)
      requires Valid() && p < t.numPieces && |data| == PieceLen(t, p)
      modifies this
      ensures Valid() && drift == old(drift) && Bounded(BLOCK_SIZE)
      ensures PieceStart(t, p) + |data| <= |old(store)|
      ensures store == Splice(old(store), PieceStart(t, p), data)
      ensures old(WholeBlocks(t, cache)) ==> WholeBlocks(t, cache)
    {
      hide Coherent, ListOk, Tiles, Sum, PieceLen, Splice, PieceStart, WholeBlocks, EndBy, ValidTorrent;
      PieceBounds(t, p);
      CoherentFacts(t, disk, store, cache, dirty);
      EndByZero(cache, p);
      ghost var start := PieceStart(t, p);
      var offset := 0;
      while offset < |data|
        invariant Valid() && drift == old(drift) && offset % BLOCK_SIZE == 0
        invariant 0 < offset ==> Bounded(BLOCK_SIZE)
        invariant EndBy(cache, p, offset)
        invariant store == Splice(old(store), start, data[..if offset < |data| then offset else |data|])
        invariant old(WholeBlocks(t, cache)) ==> WholeBlocks(t, cache)
      {
        var size := if BLOCK_SIZE < |data| - offset then BLOCK_SIZE else |data| - offset;
        SpliceExtend(old(store), start, data, offset, offset + size);
        PutPieceBlock(p, offset, data[offset..offset + size]);
        offset := offset + BLOCK_SIZE;
      }
      assert data[..|data|] == data;
    }

    /** Put what a read returned under its key. */
    method FillCache(key: Key, block: bytes)
      requires Structure() && (currentSize <= DISK_CACHE_SIZE || lruOrder == [])
      modifies this`cache, this`lruOrder, this`lruIndex, this`currentSize, this`dirty, this`drift
      ensures Structure() && cache == old(cache)[key := block] && dirty == old(dirty) - {key}
      ensures drift == old(drift) + (if key in old(cache) then |old(cache)[key]| else 0)
      ensures Bounded(|block|) && lruOrder == [key] + Without(old(lruOrder), key)
    {
      hide ListOk, Tiles, Sum, ValidTorrent;
      ListKeys(lruOrder, lruIndex, cache);
      InsertFront(lruOrder, lruIndex, cache, key, block);
      drift := drift + if key in cache then |cache[key]| else 0;
      cache := cache[key := block];
      TouchCache(key);
      currentSize := currentSize + |block|;
      dirty := dirty - {key};
    }

    ghost predicate Hit(p: nat, begin: nat, length: nat)
      reads this
    {
      Key(p, begin) in cache && length <= |cache[Key(p, begin)]|
    }

    /** A read the cache answers with the store's bytes: it hits, or meets no dirty block. */
    ghost predicate SafeRead(p: nat, begin: nat, length: nat)
      requires 0 < t.pieceSize && forall k :: k in dirty ==> IsBlock(t, k)
      reads this
    {
      Hit(p, begin, length) || Clean(t, dirty, p, begin, length)
    }

    /**
     * The miss path of read_block: read the files, then cache what was read. Nothing but the entry and the dirty mark of its
     * key can go wrong; they do not if the read is aligned and meets no dirty block.
     */
    method ReadMiss(p: nat, begin: nat, length: nat) returns (r: ReadResult)
      requires Valid() && p < t.numPieces && !Hit(p, begin, length) && forall k :: k in dirty ==> IsBlock(t, k)
      modifies this`disk, this`cache, this`lruOrder, this`lruIndex, this`currentSize, this`dirty, this`drift
      ensures Structure() && (r.ReadError? ==> Valid())
      ensures r.Data? <==> Readable(t, PieceStart(t, p) + begin, length)
      ensures begin + length <= PieceLen(t, p) ==> PieceStart(t, p) + begin + length <= |store|
      ensures r.Data? ==> |r.block| == length && ReadsAs(t, old(disk), PieceStart(t, p) + begin, r.block)
      ensures r.Data? ==> CoherentBut(t, disk, store, cache, dirty, Key(p, begin))
      ensures r.Data? && Key(p, begin) !in old(dirty) ==> DiskOk(t, disk, store, dirty)
      ensures Aligned(t, p, begin, length) && old(Clean(t, dirty, p, begin, length)) ==>
                Valid() && (r.Data? ==> r.block == Slice(store, PieceStart(t, p) + begin, length))
      ensures old(drift) <= drift
      ensures Key(p, begin) !in old(cache) || r.ReadError? ==> drift == old(drift)
      ensures Key(p, begin) in old(cache) ==> drift <= old(drift) + |old(cache)[Key(p, begin)]|
      ensures r.Data? ==> Bounded(length)
      ensures r.ReadError? ==> currentSize == old(currentSize)
      ensures forall k :: k in cache && k != Key(p, begin) ==> k in old(cache) && cache[k] == old(cache)[k]
      ensures r.Data? ==> Key(p, begin) in cache && cache[Key(p, begin)] == r.block && Key(p, begin) !in dirty
      ensures r.ReadError? ==> cache == old(cache) && lruOrder == old(lruOrder)
      ensures r.Data? ==> MovedToFront(old(lruOrder), lruOrder, Key(p, begin))
    {
      hide Coherent, ListOk, Tiles, Sum, PieceLen, IsBlock, BlockLen, Readable, ReadsAs, ValidDisk, DiskOk, EntryOk;
      hide PieceStart, Slice, Clean, CoherentBut, ValidTorrent, MovedToFront, Without;
      var key := Key(p, begin);
      PieceBounds(t, p);
      CoherentFacts(t, disk, store, cache, dirty);
      r := ReadScan(t, disk, PieceStart(t, p) + begin, length);
      if r.Data? {
        ghost var safe := Aligned(t, p, begin, length) && Clean(t, dirty, p, begin, length);
        if safe {
          CleanRead(t, disk, store, dirty, p, begin, r.block);
          CleanKey(t, cache, dirty, key, length);
          ReadEntry(t, store, p, begin, r.block);
        }
        EvictIfNeeded();
        ghost var kept := lruOrder;
        OneEntry(t, disk, store, cache, dirty, key, r.block);
        FillCache(key, r.block);
        Fronted(old(lruOrder), kept, lruOrder, key);
      }
    }

    /** The hit path of read_block: only the recency list changes. */
    method ReadHit(p: nat, begin: nat, length: nat) returns (block: bytes)
      requires Valid() && p < t.numPieces && Hit(p, begin, length)
      modifies this`lruOrder, this`lruIndex
      ensures Valid()
      ensures PieceStart(t, p) + begin + length <= |store| && block == Slice(store, PieceStart(t, p) + begin, length)
      ensures lruOrder == [Key(p, begin)] + Without(old(lruOrder), Key(p, begin))
    {
      hide Coherent, ListOk, Tiles, Sum, PieceLen, IsBlock, BlockLen, Readable, PieceStart, Slice;
      var key := Key(p, begin);
      ListKeys(lruOrder, lruIndex, cache);
      TouchHit(lruOrder, lruIndex, cache, key);
      HitSlice(t, disk, store, cache, dirty, key, length);
      TouchCache(key);
      block := cache[key][..length];
    }

    /**
     * read_block: the store's bytes, from the cache if it holds enough of the block; otherwise what the files hold, which are
     * the store's bytes if the read is aligned and meets no dirty block. It fails only on a miss that needs a deselected
     * byte. The size counter drifts by at most the length of a shorter entry that a miss overwrites, and by nothing else.
     */
    method ReadBlock(p: nat, begin: nat, length: nat) returns (r: ReadResult)
      requires Valid() && p < t.numPieces && forall k :: k in dirty ==> IsBlock(t, k)
      modifies this`disk, this`cache, this`lruOrder, this`lruIndex, this`currentSize, this`dirty, this`drift
      ensures Structure() && (Valid() || CoherentBut(t, disk, store, cache, dirty, Key(p, begin)))
      ensures begin + length <= PieceLen(t, p) ==> PieceStart(t, p) + begin + length <= |store|
      ensures r.Data? && !old(Hit(p, begin, length)) ==>
                && |r.block| == length && ReadsAs(t, old(disk), PieceStart(t, p) + begin, r.block)
                && Key(p, begin) in cache && cache[Key(p, begin)] == r.block && Key(p, begin) !in dirty
      ensures Aligned(t, p, begin, length) && old(SafeRead(p, begin, length)) ==>
                Valid() && (r.Data? ==> r.block == Slice(store, PieceStart(t, p) + begin, length))
      ensures r.Data? <==> old(Hit(p, begin, length)) || Readable(t, PieceStart(t, p) + begin, length)
      ensures old(drift) <= drift
      ensures Key(p, begin) !in old(cache) || r.ReadError? || old(Hit(p, begin, length)) ==> drift == old(drift)
      ensures Key(p, begin) in old(cache) ==> drift <= old(drift) + |old(cache)[Key(p, begin)]|
      ensures old(WholeBlocks(t, cache)) && IsBlock(t, Key(p, begin)) && length == BlockLen(t, Key(p, begin)) ==>
                WholeBlocks(t, cache) && drift == old(drift)
      ensures Bounded(length) || currentSize == old(currentSize)
      ensures if r.Data? then MovedToFront(old(lruOrder), lruOrder, Key(p, begin)) else lruOrder == old(lruOrder)
    {
      hide Coherent, ListOk, Tiles, Sum, PieceLen, IsBlock, BlockLen, Readable, PieceStart, Slice, Clean;
      if Key(p, begin) in cache && length <= |cache[Key(p, begin)]| {
        var block := ReadHit(p, begin, length);
        r := Data(block);
        Fronted(old(lruOrder), old(lruOrder), lruOrder, Key(p, begin));
      } else {
        r := ReadMiss(p, begin, length);
      }
    }

    /** sync_flush_all_dirty: afterwards nothing is dirty, and the selected files hold the store. */
    method SyncFlushAllDirty()
      requires Valid()
      modifies this`disk, this`dirty
      ensures Valid() && dirty == {}
      ensures AllSelected(t) ==> Flat(disk, |disk|) == store
    {
      hide Coherent, ListOk, Tiles, Sum, Flat, DiskOk, ValidTorrent, Written, Address;
      while dirty != {}
        invariant Valid()
        decreases |dirty|
      {
        var key :| key in dirty;
        SyncWriteBlock(key);
      }
      if AllSelected(t) {
        FlushedDisk(t, disk, store, cache);
      }
    }

    /** One operation, against the plain store. */
    method Step(op: Op) returns (r: ReadResult)
      requires Valid() && Legal(t, op)
      modifies this
      ensures Valid() && store == Apply(t, old(store), op) && Answers(t, old(store), op, r)
      ensures old(Bounded(BLOCK_SIZE)) ==> Bounded(BLOCK_SIZE)
      ensures WholeRead(t, op) && old(WholeBlocks(t, cache)) ==> WholeBlocks(t, cache) && drift == old(drift)
      ensures op.Flush? ==> dirty == {} && (AllSelected(t) ==> Flat(disk, |disk|) == store)
    {
      hide Coherent, ListOk, Tiles, Sum, PieceLen, Readable, PieceStart, Slice, Splice, Flat, AllSelected;
      CoherentFacts(t, disk, store, cache, dirty);
      r := Data([]);
      match op
      case Read(p, begin, length) =>
        BlockReadSafe(t, cache, dirty, Key(p, begin), length);
        r := ReadBlock(p, begin, length);
      case Write(p, data) =>
        WritePiece(p, data);
      case Flush =>
        SyncFlushAllDirty();
    }

    /**
     * Any run of piece writes, block reads and flushes, with the evictions they cause: every read answers what
     * a plain byte store would, and with whole-block reads the size counter is exact and bounded. After a flush the files are
     * that store.
     */
    method Run(ops: seq<Op>) returns (answers: seq<ReadResult>)
      requires Valid() && forall j :: 0 <= j < |ops| ==> Legal(t, ops[j])
      modifies this
      ensures Valid() && store == StoreAfter(t, old(store), ops)
      ensures |answers| == |ops| && AllAnswered(t, old(store), ops, answers)
      ensures old(Bounded(BLOCK_SIZE)) ==> Bounded(BLOCK_SIZE)
      ensures (forall j :: 0 <= j < |ops| ==> WholeRead(t, ops[j])) && old(WholeBlocks(t, cache)) ==>
                WholeBlocks(t, cache) && drift == old(drift)
      ensures ops != [] && ops[|ops| - 1].Flush? ==> dirty == {} && (AllSelected(t) ==> Flat(disk, |disk|) == store)
    {
      hide Coherent, ListOk, Tiles, Sum, Answers, Legal, WholeBlocks, WholeRead, Apply, AllAnswered, Flat, AllSelected;
      answers := [];
      NoneAnswered(t, store, ops);
      for n := 0 to |ops|
        invariant Valid() && store == StoreAfter(t, old(store), ops[..n]) && |answers| == n
        invariant AllAnswered(t, old(store), ops, answers)
        invariant old(Bounded(BLOCK_SIZE)) ==> Bounded(BLOCK_SIZE)
        invariant (forall j :: 0 <= j < n ==> WholeRead(t, ops[j])) && old(WholeBlocks(t, cache)) ==>
                    WholeBlocks(t, cache) && drift == old(drift)
        invariant n > 0 && ops[n - 1].Flush? ==> dirty == {} && (AllSelected(t) ==> Flat(disk, |disk|) == store)
      {
        var r := Step(ops[n]);
        OneMoreAnswered(t, old(store), ops, answers, r);
        answers := answers + [r];
      }
      assert ops[..|ops|] == ops;
    }
  }

  // ---- Whole runs ----

  datatype Op = Read(piece: nat, begin: nat, length: nat) | Write(piece: nat, data: bytes) | Flush

  /** Writes are whole pieces, reads are block-aligned and at most a block. */
  predicate Legal(t: Torrent, op: Op)
    requires 0 < t.pieceSize
  {
    match op
    case Read(p, begin, length) => IsBlock(t, Key(p, begin)) && length <= BlockLen(t, Key(p, begin))
    case Write(p, data) => p < t.numPieces && |data| == PieceLen(t, p)
    case Flush => true
  }

  predicate WholeRead(t: Torrent, op: Op)
    requires 0 < t.pieceSize && Legal(t, op)
  {
    op.Read? ==> op.length == BlockLen(t, Key(op.piece, op.begin))
  }

  /** What an operation does to a plain byte store: only writes change it. */
  function Apply(t: Torrent, store: bytes, op: Op): (r: bytes)
    ensures |r| == |store|
  {
    if op.Write? && PieceStart(t, op.piece) + |op.data| <= |store| then
      Splice(store, PieceStart(t, op.piece), op.data)
    else
      store
  }

  function StoreAfter(t: Torrent, store: bytes, ops: seq<Op>): (r: bytes)
    ensures |r| == |store|
  {
    if ops == [] then store else Apply(t, StoreAfter(t, store, ops[..|ops| - 1]), ops[|ops| - 1])
  }

  /** The answer a read of the plain store gives, or a failure on a deselected byte. */
  ghost predicate Answers(t: Torrent, store: bytes, op: Op, r: ReadResult) {
    op.Read? ==>
      var a := PieceStart(t, op.piece) + op.begin;
      && a + op.length <= |store|
      && (r.Data? ==> r.block == Slice(store, a, op.length))
      && (r.ReadError? ==> !Readable(t, a, op.length))
  }

  /** Each answer is what the plain store, after the operations before it, would give. */
  ghost predicate AllAnswered(t: Torrent, store: bytes, ops: seq<Op>, answers: seq<ReadResult>) {
    && |answers| <= |ops|
    && forall j :: 0 <= j < |answers| ==> Answers(t, StoreAfter(t, store, ops[..j]), ops[j], answers[j])
  }

  lemma NoneAnswered(t: Torrent, store: bytes, ops: seq<Op>)
    ensures AllAnswered(t, store, ops, [])
  {
  }

  lemma OneMoreAnswered(t: Torrent, store: bytes, ops: seq<Op>, answers: seq<ReadResult>, r: ReadResult)
    requires AllAnswered(t, store, ops, answers) && |answers| < |ops|
    requires Answers(t, StoreAfter(t, store, ops[..|answers|]), ops[|answers|], r)
    ensures AllAnswered(t, store, ops, answers + [r])
    ensures var n := |answers|;
            StoreAfter(t, store, ops[..n + 1]) == Apply(t, StoreAfter(t, store, ops[..n]), ops[n])
  {
    hide Answers, Apply;
    var n := |answers|;
    assert ops[..n + 1][..n] == ops[..n];
  }

  lemma FlushedDisk(t: Torrent, disk: Disk, store: bytes, cache: Cache)
    requires ValidTorrent(t) && Coherent(t, disk, store, cache, {}) && AllSelected(t)
    ensures Flat(disk, |disk|) == store
  {
    CleanDiskIsStore(t, disk, store);
  }

  // ---- When a larger read is safe ----

  /** The first n files as the given store would fill them. */
  function DiskOf(t: Torrent, store: bytes, n: nat): (disk: Disk)
    requires n <= |t.files| && FileStart(t.files, n) <= |store|
    ensures |disk| == n
  {
    if n == 0 then [] else DiskOf(t, store, n - 1) + [Slice(store, FileStart(t.files, n - 1), t.files[n - 1].size)]
  }

  lemma {:induction false} DiskOfAt(t: Torrent, store: bytes, n: nat, i: nat)
    requires i < n <= |t.files| && FileStart(t.files, n) <= |store|
    ensures FileStart(t.files, i) + t.files[i].size <= |store|
    ensures DiskOf(t, store, n)[i] == Slice(store, FileStart(t.files, i), t.files[i].size)
  {
    if i < n - 1 {
      DiskOfAt(t, store, n - 1, i);
    }
  }

  lemma DiskOfByte(t: Torrent, store: bytes, i: nat, o: nat)
    requires i < |t.files| && Total(t) == |store| && o < t.files[i].size
    ensures FileStart(t.files, i) + o < |store|
    ensures |DiskOf(t, store, |t.files|)[i]| == t.files[i].size
    ensures DiskOf(t, store, |t.files|)[i][o] == store[FileStart(t.files, i) + o]
  {
    DiskOfAt(t, store, |t.files|, i);
  }

  /** Files that agree with the store except at one address, which a dirty block covers. */
  lemma OneByteOff(t: Torrent, store: bytes, dirty: set<Key>, a: nat, store': bytes)
    requires 0 < t.pieceSize && |store| == Total(t) && a < |store| && KeyOf(t, a) in dirty
    requires |store'| == |store| && forall b :: 0 <= b < |store| && b != a ==> store'[b] == store[b]
    ensures ValidDisk(t, DiskOf(t, store', |t.files|))
    ensures DiskOk(t, DiskOf(t, store', |t.files|), store, dirty)
  {
    var disk := DiskOf(t, store', |t.files|);
    forall i | 0 <= i < |disk| ensures |disk[i]| == t.files[i].size {
      DiskOfAt(t, store', |t.files|, i);
    }
    forall i: nat, o: nat | i < |disk| && o < |disk[i]| ensures ByteOk(t, disk[i][o], i, o, store, dirty) {
      DiskOfByte(t, store', i, o);
    }
  }

  lemma DiskOfReads(t: Torrent, store: bytes, base: nat, n: nat)
    requires |store| == Total(t) && base + n <= |store| && ValidDisk(t, DiskOf(t, store, |t.files|))
    ensures ReadsAs(t, DiskOf(t, store, |t.files|), base, Slice(store, base, n))
  {
    var disk, r := DiskOf(t, store, |t.files|), Slice(store, base, n);
    forall i: nat, o: nat | i < |disk| && o < |disk[i]| ensures SameByte(t, disk[i][o], i, o, base, r) {
      DiskOfByte(t, store, i, o);
    }
  }

  /**
   * The condition on a read that misses is exact. A read longer than a block, as verify_piece issues for a
   * whole piece, sees the store whatever the files hold under dirty blocks if and only if it meets none.
   */
  lemma MissIsRightIffClean(t: Torrent, store: bytes, dirty: set<Key>, p: nat, begin: nat, n: nat)
    requires ValidTorrent(t) && |store| == Total(t) && p < t.numPieces && begin + n <= PieceLen(t, p)
    requires forall k :: k in dirty ==> IsBlock(t, k)
    requires PieceStart(t, p) + begin + n <= |store| && Readable(t, PieceStart(t, p) + begin, n)
    ensures Clean(t, dirty, p, begin, n) || n == 0 <==>
            forall disk, r: bytes ::
              (ValidDisk(t, disk) && DiskOk(t, disk, store, dirty) && |r| == n
               && ReadsAs(t, disk, PieceStart(t, p) + begin, r)) ==> r == Slice(store, PieceStart(t, p) + begin, n)
  {
    var base := PieceStart(t, p) + begin;
    if Clean(t, dirty, p, begin, n) {
      forall disk, r: bytes | ValidDisk(t, disk) && DiskOk(t, disk, store, dirty) && |r| == n && ReadsAs(t, disk, base, r)
        ensures r == Slice(store, base, n)
      {
        CleanRead(t, disk, store, dirty, p, begin, r);
      }
    } else if n != 0 {
      var disk, r := StaleRead(t, store, dirty, p, begin, n);
    }
  }

  /**
   * A missing read also erases the dirty mark of the block it starts at. The files and the remaining dirty blocks still make
   * up the store, whatever the files hold under dirty blocks, if and only if that block is not dirty: otherwise what was
   * written there can be lost.
   */
  lemma LostWriteIff(t: Torrent, store: bytes, dirty: set<Key>, key: Key)
    requires ValidTorrent(t) && |store| == Total(t) && (forall k :: k in dirty ==> IsBlock(t, k)) && IsBlock(t, key)
    requires Address(t, key) < |store| && Readable(t, Address(t, key), 1)
    ensures key !in dirty <==>
              forall disk :: ValidDisk(t, disk) && DiskOk(t, disk, store, dirty) ==> DiskOk(t, disk, store, dirty - {key})
  {
    hide PieceLen, DiskOf, KeyOf, DiskOk, ValidDisk, Readable;
    if key in dirty {
      var a := Address(t, key);
      var store' := store[a := if store[a] == 0 then 1 else 0];
      KeyOfBlock(t, key, a);
      OneByteOff(t, store, dirty, a, store');
      OffByteShows(t, store, dirty - {key}, a, store');
    } else {
      assert dirty - {key} == dirty;
    }
  }

  /** Files that differ from the store at an address that no dirty block covers are not right. */
  lemma OffByteShows(t: Torrent, store: bytes, dirty: set<Key>, a: nat, store': bytes)
    requires 0 < t.pieceSize && |store| == Total(t) == |store'| && a < |store| && store'[a] != store[a]
    requires KeyOf(t, a) !in dirty && Readable(t, a, 1) && ValidDisk(t, DiskOf(t, store', |t.files|))
    ensures !DiskOk(t, DiskOf(t, store', |t.files|), store, dirty)
  {
    hide KeyOf, DiskOf;
    var disk := DiskOf(t, store', |t.files|);
    var i, o := Locate(t.files, |t.files|, a);
    DiskOfByte(t, store', i, o);
    assert Meets(t, i, a, 1);
    assert !ByteOk(t, disk[i][o], i, o, store, dirty);
  }

  /** Files that a missing read over a dirty block answers wrongly from. */
  lemma StaleRead(t: Torrent, store: bytes, dirty: set<Key>, p: nat, begin: nat, n: nat) returns (disk: Disk, r: bytes)
    requires ValidTorrent(t) && |store| == Total(t) && p < t.numPieces && begin + n <= PieceLen(t, p)
    requires (forall k :: k in dirty ==> IsBlock(t, k)) && !Clean(t, dirty, p, begin, n) && 0 < n
    requires PieceStart(t, p) + begin + n <= |store|
    ensures ValidDisk(t, disk) && DiskOk(t, disk, store, dirty) && |r| == n
    ensures ReadsAs(t, disk, PieceStart(t, p) + begin, r) && r != Slice(store, PieceStart(t, p) + begin, n)
  {
    var base := PieceStart(t, p) + begin;
    var k :| k in dirty && k.piece == p && k.offset < begin + n && begin < k.offset + BlockLen(t, k);
    var a := if begin < k.offset then Address(t, k) else base;
    KeyOfBlock(t, k, a);
    var store' := store[a := if store[a] == 0 then 1 else 0];
    disk, r := DiskOf(t, store', |t.files|), Slice(store', base, n);
    OneByteOff(t, store, dirty, a, store');
    DiskOfReads(t, store', base, n);
    assert r[a - base] != Slice(store, base, n)[a - base];
  }
}
