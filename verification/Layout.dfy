/**
 * The piece-to-file address map of the disk layer.
 *
 * A torrent is one run of bytes, cut into equal pieces (the last one may be short) and, independently, into
 * files. Writes go through a table of piece/file overlaps computed once (BuildMaps, WriteBlock); reads walk
 * the file list (ReadScan). Both are specified against torrent addresses, so that the two can be compared.
 */
module Layout {
  import opened Arith
  import opened Bytes

  const BLOCK_SIZE: nat := 16384

  datatype FileInfo = FileInfo(size: nat, download: bool)

  datatype Torrent = Torrent(files: seq<FileInfo>, pieceSize: nat, numPieces: nat)

  /** A stretch of one piece that lies in one file. */
  datatype Overlap = Overlap(file: nat, offsetInFile: nat, offsetInPiece: nat, length: nat)

  /** The content of each file, in list order. */
  type Disk = seq<bytes>

  datatype ReadResult = Data(block: bytes) | ReadError

  /** The torrent address of the first byte of file i. */
  function FileStart(files: seq<FileInfo>, i: nat): nat
    requires i <= |files|
  {
    if i == 0 then 0 else FileStart(files, i - 1) + files[i - 1].size
  }

  function Total(t: Torrent): nat {
    FileStart(t.files, |t.files|)
  }

  /** At least one piece, and as many pieces as the bytes need. */
  predicate ValidTorrent(t: Torrent) {
    && 0 < t.pieceSize
    && 1 <= t.numPieces
    && (t.numPieces - 1) * t.pieceSize < Total(t) <= t.numPieces * t.pieceSize
  }

  /** The size of piece p, as build_maps and verify_piece compute it. */
  function PieceLen(t: Torrent, p: nat): nat
    requires 0 < t.pieceSize
  {
    if p + 1 == t.numPieces then
      if Total(t) == 0 then 0
      else if Total(t) % t.pieceSize == 0 then t.pieceSize
      else Total(t) % t.pieceSize
    else
      t.pieceSize
  }

  function PieceStart(t: Torrent, p: nat): nat {
    p * t.pieceSize
  }

  predicate ValidDisk(t: Torrent, disk: Disk) {
    && |disk| == |t.files|
    && forall i :: 0 <= i < |disk| ==> |disk[i]| == t.files[i].size
  }

  /** Overlap o of piece p names the same torrent bytes on both sides, and stays inside its file. */
  predicate ValidOverlap(t: Torrent, p: nat, o: Overlap) {
    && o.file < |t.files|
    && 0 < o.length
    && o.offsetInFile + o.length <= t.files[o.file].size
    && FileStart(t.files, o.file) + o.offsetInFile == PieceStart(t, p) + o.offsetInPiece
  }

  /** The overlaps of piece p, in file order and without gap or intersection, make up its first `upto` bytes. */
  predicate Tiles(t: Torrent, p: nat, os: seq<Overlap>, upto: nat) {
    if os == [] then upto == 0
    else
      var o := os[|os| - 1];
      && ValidOverlap(t, p, o)
      && o.offsetInPiece + o.length == upto
      && FilesBelow(os[..|os| - 1], o.file)
      && Tiles(t, p, os[..|os| - 1], o.offsetInPiece)
  }

  predicate FilesBelow(os: seq<Overlap>, n: nat) {
    os == [] || os[|os| - 1].file < n
  }

  // ---- Address arithmetic ----

  lemma {:induction false} FileStartMono(files: seq<FileInfo>, i: nat, j: nat)
    requires i < j <= |files|
    ensures FileStart(files, i) + files[i].size <= FileStart(files, j)
  {
    if i + 1 < j {
      FileStartMono(files, i, j - 1);
    }
  }

  /** Two file positions with the same torrent address are the same position. */
  lemma AddressUnique(files: seq<FileInfo>, i: nat, o: nat, j: nat, q: nat)
    requires i < |files| && o < files[i].size
    requires j < |files| && q < files[j].size
    requires FileStart(files, i) + o == FileStart(files, j) + q
    ensures i == j && o == q
  {
    if i < j {
      FileStartMono(files, i, j);
    } else if j < i {
      FileStartMono(files, j, i);
    }
  }

  /** Every torrent address lies in some file. */
  lemma {:induction false} Locate(files: seq<FileInfo>, n: nat, a: nat) returns (i: nat, o: nat)
    requires n <= |files| && a < FileStart(files, n)
    ensures i < n && o < files[i].size && FileStart(files, i) + o == a
  {
    if FileStart(files, n - 1) <= a {
      i, o := n - 1, a - FileStart(files, n - 1);
    } else {
      i, o := Locate(files, n - 1, a);
    }
  }

  /** The pieces follow each other without gap and end where the torrent ends. */
  lemma PieceBounds(t: Torrent, p: nat)
    requires ValidTorrent(t) && p < t.numPieces
    ensures 0 < t.pieceSize && 0 < PieceLen(t, p) <= t.pieceSize
    ensures PieceStart(t, p) + PieceLen(t, p) ==
            if p + 1 == t.numPieces then Total(t) else PieceStart(t, p + 1)
    ensures PieceStart(t, p) + PieceLen(t, p) <= Total(t)
  {
    var n, ps := t.numPieces, t.pieceSize;
    assert PieceStart(t, p + 1) == PieceStart(t, p) + ps;
    if p + 1 == n {
      var r := Total(t) - p * ps;
      assert 0 < r <= ps;
      ModOfSum(p, ps, r);
    } else {
      MulMono(p + 1, n - 1, ps);
    }
  }

  // ---- The overlap table ----

  /** How many bytes of piece p lie below torrent address `a`. */
  function Covered(t: Torrent, p: nat, a: nat): nat
    requires 0 < t.pieceSize
  {
    if a <= PieceStart(t, p) then 0
    else if PieceStart(t, p) + PieceLen(t, p) <= a then PieceLen(t, p)
    else a - PieceStart(t, p)
  }

  lemma BelowStart(t: Torrent, p: nat, a: nat)
    requires ValidTorrent(t) && p < t.numPieces && p < a / t.pieceSize
    ensures PieceStart(t, p) + PieceLen(t, p) <= a
  {
    DivBounds(a, t.pieceSize);
    PieceBounds(t, p);
    MulMono(p + 1, a / t.pieceSize, t.pieceSize);
    assert (p + 1) * t.pieceSize == PieceStart(t, p) + t.pieceSize;
  }

  lemma AboveEnd(t: Torrent, p: nat, a: nat)
    requires ValidTorrent(t) && p < t.numPieces && 0 < a && (a - 1) / t.pieceSize < p
    ensures a <= PieceStart(t, p)
  {
    DivBounds(a - 1, t.pieceSize);
    MulMono((a - 1) / t.pieceSize + 1, p, t.pieceSize);
  }

  /** The overlap of the bytes lo..hi of file i with piece p, if there is one. */
  function OverlapOf(t: Torrent, i: nat, lo: nat, hi: nat, p: nat): (r: Option<Overlap>)
    requires 0 < t.pieceSize
  {
    var start := if PieceStart(t, p) < lo then lo else PieceStart(t, p);
    var pieceEnd := PieceStart(t, p) + PieceLen(t, p);
    var end := if hi < pieceEnd then hi else pieceEnd;
    if start < end then Some(Overlap(i, start - lo, start - PieceStart(t, p), end - start)) else None
  }

  function Append<T>(s: seq<T>, x: Option<T>): seq<T> {
    if x.Some? then s + [x.value] else s
  }

  /** Entering file i's overlap moves the covered length of piece p from the file's start to its end. */
  lemma EnterOverlap(t: Torrent, p: nat, os: seq<Overlap>, i: nat, lo: nat, hi: nat)
    requires ValidTorrent(t) && i < |t.files| && p < t.numPieces
    requires lo == FileStart(t.files, i) && hi == lo + t.files[i].size
    requires Tiles(t, p, os, Covered(t, p, lo)) && FilesBelow(os, i)
    ensures Tiles(t, p, Append(os, OverlapOf(t, i, lo, hi, p)), Covered(t, p, hi))
    ensures FilesBelow(Append(os, OverlapOf(t, i, lo, hi, p)), i + 1)
  {
  }

  /** Piece row os has an overlap with file i. */
  predicate Touches(os: seq<Overlap>, i: nat) {
    exists k :: 0 <= k < |os| && os[k].file == i
  }

  predicate Ascending(ps: seq<nat>) {
    forall j, k :: 0 <= j < k < |ps| ==> ps[j] < ps[k]
  }

  /** Row j of the file table lists, in order, the pieces that touch file j. */
  ghost predicate Listed(numPieces: nat, p2f: seq<seq<Overlap>>, ps: seq<nat>, j: nat)
    requires |p2f| == numPieces
  {
    && Ascending(ps)
    && (forall p: nat :: p in ps ==> p < numPieces)
    && (forall p: nat :: p < numPieces ==> (p in ps <==> Touches(p2f[p], j)))
  }

  lemma TouchesAppend(os: seq<Overlap>, o: Overlap, j: nat)
    ensures Touches(os + [o], j) <==> Touches(os, j) || o.file == j
  {
    var ns := os + [o];
    if Touches(os, j) {
      var k :| 0 <= k < |os| && os[k].file == j;
      assert ns[k].file == j;
    }
    if o.file == j {
      assert ns[|os|].file == j;
    }
  }

  lemma {:induction false} NoTouch(t: Torrent, p: nat, os: seq<Overlap>, upto: nat, i: nat)
    requires Tiles(t, p, os, upto) && FilesBelow(os, i)
    ensures !Touches(os, i)
    decreases |os|
  {
    if os != [] {
      var init, o := os[..|os| - 1], os[|os| - 1];
      assert os == init + [o];
      NoTouch(t, p, init, o.offsetInPiece, i);
      TouchesAppend(init, o, i);
    }
  }

  /** Adding an overlap of file i to row p, and p to the pieces of file i, keeps every file row right. */
  lemma EnterListed(n: nat, p2f: seq<seq<Overlap>>, ps: seq<nat>, j: nat, p: nat, o: Overlap)
    requires |p2f| == n && p < n && Listed(n, p2f, ps, j)
    requires o.file == j ==> forall q :: q in ps ==> q < p
    ensures Listed(n, p2f[p := p2f[p] + [o]], if o.file == j then ps + [p] else ps, j)
  {
    TouchesAppend(p2f[p], o, j);
    assert forall k :: 0 <= k < |ps| ==> ps[k] in ps;
    var p2f', ps' := p2f[p := p2f[p] + [o]], if o.file == j then ps + [p] else ps;
    forall q: nat | q < n ensures q in ps' <==> Touches(p2f'[q], j) {
      assert q in ps <==> Touches(p2f[q], j);
    }
  }

  ghost predicate AllListed(t: Torrent, p2f: seq<seq<Overlap>>, f2p: seq<seq<nat>>) {
    && |p2f| == t.numPieces
    && |f2p| == |t.files|
    && forall j :: 0 <= j < |f2p| ==> Listed(t.numPieces, p2f, f2p[j], j)
  }

  /** All pieces below q have been entered up to torrent address hi, the others up to lo. */
  ghost predicate Rows(t: Torrent, p2f: seq<seq<Overlap>>, i: nat, q: nat, lo: nat, hi: nat)
    requires 0 < t.pieceSize
  {
    && |p2f| == t.numPieces
    && (forall p :: 0 <= p < q && p < t.numPieces ==> Row(t, p, p2f[p], i + 1, hi))
    && (forall p :: q <= p < t.numPieces ==> Row(t, p, p2f[p], i, lo))
  }

  ghost predicate Row(t: Torrent, p: nat, os: seq<Overlap>, i: nat, a: nat)
    requires 0 < t.pieceSize
  {
    Tiles(t, p, os, Covered(t, p, a)) && FilesBelow(os, i)
  }

  lemma EnterRow(t: Torrent, p2f: seq<seq<Overlap>>, i: nat, p: nat, lo: nat, hi: nat)
    requires ValidTorrent(t) && i < |t.files| && p < t.numPieces
    requires lo == FileStart(t.files, i) && hi == lo + t.files[i].size
    requires Rows(t, p2f, i, p, lo, hi)
    ensures Rows(t, p2f[p := Append(p2f[p], OverlapOf(t, i, lo, hi, p))], i, p + 1, lo, hi)
  {
    assert Row(t, p, p2f[p], i, lo);
    EnterOverlap(t, p, p2f[p], i, lo, hi);
  }

  lemma EnterAllListed(t: Torrent, p2f: seq<seq<Overlap>>, f2p: seq<seq<nat>>, i: nat, p: nat, lo: nat, hi: nat, o: Overlap)
    requires 0 < t.pieceSize && i < |t.files| && p < t.numPieces
    requires Rows(t, p2f, i, p, lo, hi) && AllListed(t, p2f, f2p) && o.file == i
    ensures AllListed(t, p2f[p := p2f[p] + [o]], f2p[i := f2p[i] + [p]])
  {
    forall q | q in f2p[i] ensures q < p {
      if p <= q {
        assert Row(t, q, p2f[q], i, lo);
        NoTouch(t, q, p2f[q], Covered(t, q, lo), i);
      }
    }
    var f2p' := f2p[i := f2p[i] + [p]];
    forall j | 0 <= j < |f2p'| ensures Listed(t.numPieces, p2f[p := p2f[p] + [o]], f2p'[j], j) {
      EnterListed(t.numPieces, p2f, f2p[j], j, p, o);
    }
  }

  /** Pieces that end before file i starts are complete already. */
  lemma FirstRows(t: Torrent, p2f: seq<seq<Overlap>>, i: nat, lo: nat, hi: nat)
    requires 0 < t.pieceSize && lo <= hi && Rows(t, p2f, i, 0, lo, lo)
    requires ValidTorrent(t)
    ensures Rows(t, p2f, i, lo / t.pieceSize, lo, hi)
  {
    forall p | 0 <= p < lo / t.pieceSize && p < t.numPieces ensures Row(t, p, p2f[p], i + 1, hi) {
      assert Row(t, p, p2f[p], i, lo);
      BelowStart(t, p, lo);
      PieceBounds(t, p);
    }
  }

  /** Pieces that start after file i ends are not touched by it. */
  lemma LastRows(t: Torrent, p2f: seq<seq<Overlap>>, i: nat, q: nat, lo: nat, hi: nat)
    requires ValidTorrent(t) && lo <= hi && Rows(t, p2f, i, q, lo, hi)
    requires lo < hi ==> (hi - 1) / t.pieceSize < q || t.numPieces <= q
    ensures Rows(t, p2f, i + 1, 0, hi, hi)
  {
    forall p | q <= p < t.numPieces ensures Row(t, p, p2f[p], i + 1, hi) {
      assert Row(t, p, p2f[p], i, lo);
      if lo < hi {
        AboveEnd(t, p, hi);
      }
    }
  }

  lemma InitialRows(t: Torrent, p2f: seq<seq<Overlap>>, f2p: seq<seq<nat>>)
    requires 0 < t.pieceSize && |p2f| == t.numPieces && |f2p| == |t.files|
    requires forall p :: 0 <= p < |p2f| ==> p2f[p] == []
    requires forall i :: 0 <= i < |f2p| ==> f2p[i] == []
    ensures Rows(t, p2f, 0, 0, 0, 0) && AllListed(t, p2f, f2p)
  {
  }

  lemma ValidFacts(t: Torrent)
    requires ValidTorrent(t)
    ensures 0 < t.pieceSize && 1 <= t.numPieces
  {
  }

  lemma RowsTotal(t: Torrent)
    ensures FileStart(t.files, |t.files|) == Total(t)
  {
  }

  lemma FinalRows(t: Torrent, p2f: seq<seq<Overlap>>)
    requires ValidTorrent(t) && Rows(t, p2f, |t.files|, 0, Total(t), Total(t))
    ensures |p2f| == t.numPieces
    ensures forall p :: 0 <= p < t.numPieces ==> Tiles(t, p, p2f[p], PieceLen(t, p))
  {
    forall p | 0 <= p < t.numPieces ensures Tiles(t, p, p2f[p], PieceLen(t, p)) {
      assert Row(t, p, p2f[p], |t.files|, Total(t));
      PieceBounds(t, p);
    }
  }

  /**
   * build_maps: for every piece its overlaps in file order, for every file the pieces it touches. Each piece is
   * tiled exactly by its overlaps.
   */
  method BuildMaps(t: Torrent) returns (pieceToFiles: seq<seq<Overlap>>, fileToPieces: seq<seq<nat>>)
    requires ValidTorrent(t)
    ensures |pieceToFiles| == t.numPieces && |fileToPieces| == |t.files|
    ensures forall p :: 0 <= p < t.numPieces ==> Tiles(t, p, pieceToFiles[p], PieceLen(t, p))
    ensures forall i :: 0 <= i < |t.files| ==> Listed(t.numPieces, pieceToFiles, fileToPieces[i], i)
  {
    hide Rows, Row, Tiles, Covered, PieceLen, PieceStart, Listed, Total, ValidTorrent;
    ValidFacts(t);
    pieceToFiles := seq(t.numPieces, _ => []);
    fileToPieces := seq(|t.files|, _ => []);
    InitialRows(t, pieceToFiles, fileToPieces);
    var currentOffset := 0;
    for i := 0 to |t.files|
      invariant currentOffset == FileStart(t.files, i)
      invariant Rows(t, pieceToFiles, i, 0, currentOffset, currentOffset)
      invariant AllListed(t, pieceToFiles, fileToPieces)
    {
      var fileStart, fileEnd := currentOffset, currentOffset + t.files[i].size;
      var startPiece := fileStart / t.pieceSize;
      var endPiece := if t.files[i].size == 0 then startPiece else (fileEnd - 1) / t.pieceSize;
      if endPiece >= t.numPieces {
        endPiece := t.numPieces - 1;
      }
      FirstRows(t, pieceToFiles, i, fileStart, fileEnd);
      var p := startPiece;
      while p <= endPiece
        invariant startPiece <= p
        invariant Rows(t, pieceToFiles, i, p, fileStart, fileEnd)
        invariant AllListed(t, pieceToFiles, fileToPieces)
      {
        var pieceStart := PieceStart(t, p);
        var pieceEnd := pieceStart + PieceLen(t, p);
        var overlapStart := if pieceStart < fileStart then fileStart else pieceStart;
        var overlapEnd := if fileEnd < pieceEnd then fileEnd else pieceEnd;
        EnterRow(t, pieceToFiles, i, p, fileStart, fileEnd);
        if overlapEnd > overlapStart {
          var o := Overlap(i, overlapStart - fileStart, overlapStart - pieceStart, overlapEnd - overlapStart);
          EnterAllListed(t, pieceToFiles, fileToPieces, i, p, fileStart, fileEnd, o);
          pieceToFiles := pieceToFiles[p := pieceToFiles[p] + [o]];
          fileToPieces := fileToPieces[i := fileToPieces[i] + [p]];
        } else {
          assert pieceToFiles[p := pieceToFiles[p]] == pieceToFiles;
        }
        p := p + 1;
      }
      LastRows(t, pieceToFiles, i, p, fileStart, fileEnd);
      currentOffset := currentOffset + t.files[i].size;
    }
    RowsTotal(t);
    FinalRows(t, pieceToFiles);
  }

  /** Each byte of a tiled stretch lies in exactly one overlap. */
  lemma {:induction false} TilesExactlyOnce(t: Torrent, p: nat, os: seq<Overlap>, upto: nat, b: nat)
    requires Tiles(t, p, os, upto) && b < upto
    ensures exists k :: 0 <= k < |os| && Holds(os[k], b)
    ensures forall j, k :: 0 <= j < |os| && 0 <= k < |os| && Holds(os[j], b) && Holds(os[k], b) ==> j == k
    decreases |os|
  {
    var init, o := os[..|os| - 1], os[|os| - 1];
    assert forall k :: 0 <= k < |init| ==> os[k] == init[k];
    if b < o.offsetInPiece {
      TilesExactlyOnce(t, p, init, o.offsetInPiece, b);
      var k :| 0 <= k < |init| && Holds(init[k], b);
      assert Holds(os[k], b);
    } else {
      assert Holds(os[|os| - 1], b);
      forall k | 0 <= k < |init| ensures !Holds(init[k], b) {
        TilesBelow(t, p, init, o.offsetInPiece, k);
      }
    }
  }

  predicate Holds(o: Overlap, b: nat) {
    o.offsetInPiece <= b < o.offsetInPiece + o.length
  }

  lemma {:induction false} TilesBelow(t: Torrent, p: nat, os: seq<Overlap>, upto: nat, k: nat)
    requires Tiles(t, p, os, upto) && k < |os|
    ensures Tiles(t, p, os[..k], os[k].offsetInPiece) && ValidOverlap(t, p, os[k])
    ensures os[k].offsetInPiece == End(os[..k])
    ensures os[k].offsetInPiece + os[k].length == End(os[..k + 1]) <= upto
    decreases |os|
  {
    var init := os[..|os| - 1];
    if k < |init| {
      TilesBelow(t, p, init, os[|os| - 1].offsetInPiece, k);
      assert os[..k] == init[..k] && os[..k + 1] == init[..k + 1];
    } else {
      assert os[..k + 1] == os;
    }
  }

  lemma TilesEnd(t: Torrent, p: nat, os: seq<Overlap>, upto: nat)
    requires Tiles(t, p, os, upto)
    ensures End(os) == upto
  {
  }

  // ---- Writing through the table ----

  /** Nothing changed but the selected bytes of the torrent addresses base..limit, which come from data. */
  ghost predicate WrittenUpTo(t: Torrent, before: Disk, after: Disk, base: nat, data: bytes, limit: nat)
    requires ValidDisk(t, before)
  {
    && ValidDisk(t, after)
    && forall i: nat, o: nat {:trigger after[i][o]} :: i < |after| && o < |after[i]| ==>
         after[i][o] == NewByte(t, before[i][o], i, o, base, data, limit)
  }

  function NewByte(t: Torrent, old_: byte, i: nat, o: nat, base: nat, data: bytes, limit: nat): byte
    requires i < |t.files|
  {
    var a := FileStart(t.files, i) + o;
    if t.files[i].download && base <= a < base + |data| && a < limit then data[a - base] else old_
  }

  /** The block data now stands at torrent address base, except in deselected files; nothing else changed. */
  ghost predicate Written(t: Torrent, before: Disk, after: Disk, base: nat, data: bytes)
    requires ValidDisk(t, before)
  {
    WrittenUpTo(t, before, after, base, data, base + |data|)
  }

  /** The part of overlap o that belongs to the block. */
  function Intersection(offset: nat, data: bytes, o: Overlap): (r: (nat, nat)) {
    var end := offset + |data|;
    (if offset < o.offsetInPiece then o.offsetInPiece else offset,
     if end < o.offsetInPiece + o.length then end else o.offsetInPiece + o.length)
  }

  function WriteOverlap(t: Torrent, disk: Disk, p: nat, offset: nat, data: bytes, o: Overlap): Disk
    requires ValidDisk(t, disk) && ValidOverlap(t, p, o)
  {
    var (start, end) := Intersection(offset, data, o);
    if t.files[o.file].download && start < end then
      disk[o.file := Splice(disk[o.file], o.offsetInFile + (start - o.offsetInPiece),
                            data[start - offset..end - offset])]
    else
      disk
  }

  lemma WriteOverlapStep(t: Torrent, before: Disk, disk: Disk, p: nat, offset: nat, data: bytes, o: Overlap)
    requires ValidDisk(t, before) && ValidOverlap(t, p, o)
    requires WrittenUpTo(t, before, disk, PieceStart(t, p) + offset, data, PieceStart(t, p) + o.offsetInPiece)
    ensures WrittenUpTo(t, before, WriteOverlap(t, disk, p, offset, data, o), PieceStart(t, p) + offset, data,
                        PieceStart(t, p) + o.offsetInPiece + o.length)
  {
    hide FileStart, PieceStart;
    var after := WriteOverlap(t, disk, p, offset, data, o);
    var limit := PieceStart(t, p) + o.offsetInPiece;
    forall i: nat, q: nat | i < |after| && q < |after[i]| && i != o.file
      ensures after[i][q] == disk[i][q]
      ensures !(limit <= FileStart(t.files, i) + q < limit + o.length)
    {
      var a := FileStart(t.files, i) + q;
      if limit <= a < limit + o.length {
        AddressUnique(t.files, i, q, o.file, a - FileStart(t.files, o.file));
      }
    }
  }

  /** sync_write_block: the block at `offset` of piece p goes to the files its overlaps name. */
  method WriteBlock(t: Torrent, overlaps: seq<Overlap>, disk: Disk, p: nat, offset: nat, data: bytes) returns (after: Disk)
    requires ValidTorrent(t) && p < t.numPieces && Tiles(t, p, overlaps, PieceLen(t, p))
    requires ValidDisk(t, disk) && offset + |data| <= PieceLen(t, p)
    ensures Written(t, disk, after, PieceStart(t, p) + offset, data)
  {
    hide Tiles, ValidTorrent, PieceLen, PieceStart, ValidOverlap, WriteOverlap, End;
    PieceBounds(t, p);
    after := disk;
    if |data| == 0 {
      return;
    }
    ghost var start := PieceStart(t, p);
    EndEmpty();
    for k := 0 to |overlaps|
      invariant WrittenUpTo(t, disk, after, start + offset, data, start + End(overlaps[..k]))
    {
      TilesBelow(t, p, overlaps, PieceLen(t, p), k);
      WriteOverlapStep(t, disk, after, p, offset, data, overlaps[k]);
      after := WriteOverlap(t, after, p, offset, data, overlaps[k]);
    }
    assert overlaps[..|overlaps|] == overlaps;
    TilesEnd(t, p, overlaps, PieceLen(t, p));
  }

  lemma EndEmpty()
    ensures End([]) == 0
  {
  }

  function End(os: seq<Overlap>): nat {
    if os == [] then 0 else os[|os| - 1].offsetInPiece + os[|os| - 1].length
  }


  // ---- Reading by scanning the files ----

  /** File i holds some of the n bytes at torrent address a. */
  predicate Meets(t: Torrent, i: nat, a: nat, n: nat)
    requires i < |t.files|
  {
    0 < t.files[i].size && 0 < n && FileStart(t.files, i) < a + n && a < FileStart(t.files, i) + t.files[i].size
  }

  predicate SelectedBelow(t: Torrent, k: nat, a: nat, n: nat)
    requires k <= |t.files|
  {
    forall i :: 0 <= i < k && Meets(t, i, a, n) ==> t.files[i].download
  }

  /** All n bytes at address a exist and are in files that were selected for download. */
  predicate Readable(t: Torrent, a: nat, n: nat) {
    n == 0 || (a + n <= Total(t) && SelectedBelow(t, |t.files|, a, n))
  }

  /** r is what the disk holds from torrent address a on. */
  ghost predicate ReadsAs(t: Torrent, disk: Disk, a: nat, r: bytes)
    requires ValidDisk(t, disk)
  {
    forall i: nat, o: nat {:trigger disk[i][o]} :: i < |disk| && o < |disk[i]| ==> SameByte(t, disk[i][o], i, o, a, r)
  }

  predicate SameByte(t: Torrent, x: byte, i: nat, o: nat, a: nat, r: bytes)
    requires i < |t.files|
  {
    var b := FileStart(t.files, i) + o;
    a <= b < a + |r| ==> r[b - a] == x
  }

  lemma SameByteStep(t: Torrent, x: byte, j: nat, o: nat, a: nat, r: bytes, i: nat, part: bytes, pos: nat)
    requires i < |t.files| && j < |t.files| && o < t.files[j].size
    requires FileStart(t.files, i) + pos == a + |r| && pos + |part| <= t.files[i].size
    requires SameByte(t, x, j, o, a, r)
    requires i == j && pos <= o < pos + |part| ==> part[o - pos] == x
    ensures SameByte(t, x, j, o, a, r + part)
  {
    hide FileStart;
    var b := FileStart(t.files, j) + o;
    if a + |r| <= b < a + |r| + |part| {
      AddressUnique(t.files, j, o, i, pos + (b - a - |r|));
    }
  }

  lemma ReadStep(t: Torrent, disk: Disk, a: nat, r: bytes, i: nat, pos: nat, n: nat)
    requires ValidDisk(t, disk) && ReadsAs(t, disk, a, r) && i < |t.files|
    requires FileStart(t.files, i) + pos == a + |r| && pos + n <= |disk[i]|
    ensures ReadsAs(t, disk, a, r + disk[i][pos..pos + n])
  {
    var part := disk[i][pos..pos + n];
    forall j: nat, o: nat | j < |disk| && o < |disk[j]| ensures SameByte(t, disk[j][o], j, o, a, r + part) {
      SameByteStep(t, disk[j][o], j, o, a, r, i, part, pos);
    }
  }

  /** The scan stands at file i with `got` of the n bytes; `lost` if a deselected file held the next one. */
  ghost predicate Scanning(t: Torrent, a: nat, n: nat, i: nat, got: nat, lost: bool) {
    && i <= |t.files|
    && got < n
    && (lost <==> !SelectedBelow(t, i, a, n))
    && (lost ==> a + got < FileStart(t.files, i))
    && (!lost ==> FileStart(t.files, i) <= a + got)
    && (got != 0 ==> a + got <= FileStart(t.files, i))
  }

  lemma ScanDeselected(t: Torrent, a: nat, n: nat, i: nat, got: nat, lost: bool)
    requires Scanning(t, a, n, i, got, lost) && i < |t.files| && !t.files[i].download
    ensures Scanning(t, a, n, i + 1, got, lost || Meets(t, i, a, n))
  {
  }

  lemma ScanTaken(t: Torrent, a: nat, n: nat, i: nat, got: nat, got': nat)
    requires Scanning(t, a, n, i, got, false) && i < |t.files| && t.files[i].download
    requires var end := FileStart(t.files, i + 1);
             got' == if end <= a + got then got else if n < end - a then n else end - a
    ensures SelectedBelow(t, i + 1, a, n)
    ensures got' < n ==> Scanning(t, a, n, i + 1, got', false)
    ensures got' == n ==> Readable(t, a, n)
  {
    assert SelectedBelow(t, i + 1, a, n);
    if got' == n {
      forall j | i < j < |t.files| ensures !Meets(t, j, a, n) {
        FileStartMono(t.files, i, j);
      }
      FileStartMono(t.files, i, |t.files|);
    }
  }

  lemma ScanFailed(t: Torrent, a: nat, n: nat, i: nat, got: nat, lost: bool)
    requires Scanning(t, a, n, i, got, lost)
    requires a + got < FileStart(t.files, i) || i == |t.files|
    ensures !Readable(t, a, n)
  {
  }

  /**
   * The disk part of read_block: walk the files, taking from each selected file what the block still lacks. A
   * start before the file's own beginning wraps around in the unsigned arithmetic of the original and is refused
   * by the file layer. The read succeeds exactly when no byte of the block is missing or deselected.
   */
  method ReadScan(t: Torrent, disk: Disk, globalOffset: nat, length: nat) returns (r: ReadResult)
    requires ValidDisk(t, disk)
    ensures r.Data? <==> Readable(t, globalOffset, length)
    ensures r.Data? ==> |r.block| == length && ReadsAs(t, disk, globalOffset, r.block)
  {
    var block: bytes := [];
    var currentOffset := 0;
    ghost var lost := false;
    var i := 0;
    while i < |t.files| && |block| != length
      invariant i <= |t.files| && currentOffset == FileStart(t.files, i) && |block| <= length
      invariant ReadsAs(t, disk, globalOffset, block)
      invariant |block| < length ==> Scanning(t, globalOffset, length, i, |block|, lost)
      invariant |block| == length ==> Readable(t, globalOffset, length)
    {
      var file, got := t.files[i], |block|;
      if file.download {
        var readStart := globalOffset + got;
        if readStart < currentOffset {
          ScanFailed(t, globalOffset, length, i, got, lost);
          return ReadError;
        }
        if readStart < currentOffset + file.size {
          var pos := readStart - currentOffset;
          var n := if length - got < file.size - pos then length - got else file.size - pos;
          ReadStep(t, disk, globalOffset, block, i, pos, n);
          block := block + disk[i][pos..pos + n];
        }
        ScanTaken(t, globalOffset, length, i, got, |block|);
      } else {
        ScanDeselected(t, globalOffset, length, i, got, lost);
        lost := lost || Meets(t, i, globalOffset, length);
      }
      currentOffset := currentOffset + file.size;
      i := i + 1;
    }
    if |block| != length {
      ScanFailed(t, globalOffset, length, i, |block|, lost);
      return ReadError;
    }
    return Data(block);
  }

  // ---- The two translations agree ----

  /** A block written through the overlap table and read back by the scan is the same block. */
  lemma WriteThenRead(t: Torrent, before: Disk, after: Disk, base: nat, data: bytes, r: bytes)
    requires ValidDisk(t, before) && Written(t, before, after, base, data)
    requires Readable(t, base, |data|) && |r| == |data| && ReadsAs(t, after, base, r)
    ensures r == data
  {
    forall k | 0 <= k < |r| ensures r[k] == data[k] {
      var i, o := Locate(t.files, |t.files|, base + k);
      assert Meets(t, i, base, |data|);
      assert after[i][o] == data[k] && SameByte(t, after[i][o], i, o, base, r);
    }
  }
}
