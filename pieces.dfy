/**
 * How the client cuts a torrent's content into pieces and each piece into
 * 16 KiB blocks, the block `request` fields it sends for them, and how it
 * splits the `pieces` string of the metainfo into 20-byte piece hashes.
 *
 * The source computes the counts as `int(math.Ceil(float64(a) / float64(b)))`;
 * here that is the exact integer ceiling `CeilDiv`.
 */
module Pieces {
  import opened Common
  import opened PeerWire

  /** The largest block the client requests. */
  const BLOCK_SIZE: int := 16 * 1024

  /** `min` of two Go `int`s. */
  function Min(a: int64, b: int64): (r: int64)
    ensures r <= a && r <= b
    ensures r == a || r == b
  {
    if a > b then b else a
  }

  /** The least integer at or above `a / b`. */
  function CeilDiv(a: int, b: int): int
    requires b > 0
  {
    -((-a) / b)
  }

  /** `CeilDiv(a, b)` parts of size `b` are needed to cover `a`, and one fewer is not enough. */
  lemma CeilDivSpec(a: int, b: int)
    requires b > 0
    ensures (CeilDiv(a, b) - 1) * b < a <= CeilDiv(a, b) * b
    ensures a > 0 ==> CeilDiv(a, b) >= 1
    ensures a <= 0 ==> CeilDiv(a, b) <= 0
  {
    var q := (-a) / b;
    assert q * b <= -a < q * b + b;
  }

  /**
   * The size of part `i` when `total` is cut into parts of `unit`: every part
   * is `unit` except the last, which is what remains.
   */
  function PartLength(total: int, unit: int, i: int): int
    requires unit > 0
  {
    var count := CeilDiv(total, unit);
    if i == count - 1 then total - (count - 1) * unit else unit
  }

  /** The sizes of all the parts, in order. */
  function Parts(total: int, unit: int): (r: seq<int>)
    requires unit > 0
    ensures total > 0 ==> |r| == CeilDiv(total, unit)
  {
    CeilDivSpec(total, unit);
    seq(if total > 0 then CeilDiv(total, unit) else 0, i => PartLength(total, unit, i))
  }

  function Sum(s: seq<int>): int {
    if s == [] then 0 else Sum(s[..|s| - 1]) + s[|s| - 1]
  }

  /** The parts before the last are full, so the first `k` of them add up to `k` units. */
  lemma {:induction false} FullPartsSum(total: int, unit: int, k: nat)
    requires unit > 0 && total > 0 && k < CeilDiv(total, unit)
    ensures Sum(Parts(total, unit)[..k]) == k * unit
  {
    if k > 0 {
      assert Parts(total, unit)[..k][..k - 1] == Parts(total, unit)[..k - 1];
      FullPartsSum(total, unit, k - 1);
    }
  }

  /**
   * Cutting a positive `total` into parts of `unit`: every part but the last
   * is `unit`, the last is in (0, unit], and the parts add up to `total`.
   */
  lemma PartsSpec(total: int, unit: int)
    requires unit > 0 && total > 0
    ensures |Parts(total, unit)| >= 1
    ensures forall i :: 0 <= i < |Parts(total, unit)| - 1 ==> Parts(total, unit)[i] == unit
    ensures 0 < Parts(total, unit)[|Parts(total, unit)| - 1] <= unit
    ensures Sum(Parts(total, unit)) == total
  {
    var p := Parts(total, unit);
    var c := CeilDiv(total, unit);
    CeilDivSpec(total, unit);
    FullPartsSum(total, unit, c - 1);
    assert p[..c - 1] == p[..|p| - 1];
  }

  /** The number of pieces of content of `length` bytes cut into pieces of `pieceLength`. */
  function PieceCount(length: int, pieceLength: int): int
    requires pieceLength > 0
  {
    CeilDiv(length, pieceLength)
  }

  /** Piece `k`'s length: `pieceLength`, except for the last piece, which holds what remains. */
  function PieceLength(length: int, pieceLength: int, k: int): int
    requires pieceLength > 0
  {
    PartLength(length, pieceLength, k)
  }

  /**
   * Content of positive length has ceil(length / pieceLength) pieces; every
   * piece but the last is full, the last is in (0, pieceLength], and the
   * piece lengths add up to the content length.
   */
  lemma PiecesSpec(length: int, pieceLength: int)
    requires pieceLength > 0 && length > 0
    ensures var count := PieceCount(length, pieceLength);
      count >= 1 && (count - 1) * pieceLength < length <= count * pieceLength &&
      (forall k :: 0 <= k < count - 1 ==> PieceLength(length, pieceLength, k) == pieceLength) &&
      0 < PieceLength(length, pieceLength, count - 1) <= pieceLength
    ensures Sum(Parts(length, pieceLength)) == length
  {
    CeilDivSpec(length, pieceLength);
    PartsSpec(length, pieceLength);
    var count := PieceCount(length, pieceLength);
    assert Parts(length, pieceLength)[count - 1] == PieceLength(length, pieceLength, count - 1);
    forall k | 0 <= k < count - 1 ensures PieceLength(length, pieceLength, k) == pieceLength {
      assert Parts(length, pieceLength)[k] == PieceLength(length, pieceLength, k);
    }
  }

  /** The number of blocks of a piece of `pieceLength` bytes. */
  function BlockCount(pieceLength: int): int {
    CeilDiv(pieceLength, BLOCK_SIZE)
  }

  /** The request for block `i` of piece `pieceNumber`, with Go's `int32` conversions of each field. */
  function Block(pieceNumber: int, pieceLength: int, i: int): BlockRequest {
    BlockRequest(Wrap32(pieceNumber), Wrap32(BLOCK_SIZE * i), Wrap32(PartLength(pieceLength, BLOCK_SIZE, i)))
  }

  /** The requests for every block of a piece, in ascending offset order. */
  function BlockPlan(pieceNumber: int, pieceLength: int): seq<BlockRequest> {
    seq(if pieceLength > 0 then BlockCount(pieceLength) else 0, i => Block(pieceNumber, pieceLength, i))
  }

  /** The block lengths a plan asks for, in order. */
  function Lengths(plan: seq<BlockRequest>): (r: seq<int>)
    ensures |r| == |plan|
  {
    seq(|plan|, i requires 0 <= i < |plan| => plan[i].length as int)
  }

  /**
   * The blocks of a piece whose fields fit in `int32` tile it: block `i`
   * begins at 16384·i, every block but the last is 16384 bytes, the last is
   * in (0, 16384] and ends where the piece ends, and the lengths add up to
   * the piece length.
   */
  lemma BlockPlanTiles(pieceNumber: int, pieceLength: int)
    requires MIN_INT32 <= pieceNumber <= MAX_INT32
    requires 0 < pieceLength <= MAX_INT32
    ensures var p := BlockPlan(pieceNumber, pieceLength);
      |p| == BlockCount(pieceLength) >= 1 &&
      (forall i :: 0 <= i < |p| ==> p[i].index as int == pieceNumber && p[i].begin as int == BLOCK_SIZE * i) &&
      (forall i :: 0 <= i < |p| - 1 ==> p[i].length as int == BLOCK_SIZE) &&
      0 < p[|p| - 1].length as int <= BLOCK_SIZE &&
      p[|p| - 1].begin as int + p[|p| - 1].length as int == pieceLength
    ensures Sum(Lengths(BlockPlan(pieceNumber, pieceLength))) == pieceLength
  {
    var p := BlockPlan(pieceNumber, pieceLength);
    var parts := Parts(pieceLength, BLOCK_SIZE);
    PartsSpec(pieceLength, BLOCK_SIZE);
    forall i | 0 <= i < |p|
      ensures p[i].index as int == pieceNumber && p[i].begin as int == BLOCK_SIZE * i
      ensures p[i].length as int == parts[i]
    {
      BlockFields(pieceNumber, pieceLength, i);
    }
    assert Lengths(p) == parts;
  }

  /**
   * Whatever the piece number and however long the piece, every block length
   * is in (0, 16384], where the `int32` conversion changes nothing: the plan
   * asks for exactly the block parts of the piece, and they add up to it.
   */
  lemma BlockLengths(pieceNumber: int, pieceLength: int)
    requires pieceLength > 0
    ensures Lengths(BlockPlan(pieceNumber, pieceLength)) == Parts(pieceLength, BLOCK_SIZE)
    ensures Sum(Lengths(BlockPlan(pieceNumber, pieceLength))) == pieceLength
  {
    var p := BlockPlan(pieceNumber, pieceLength);
    var parts := Parts(pieceLength, BLOCK_SIZE);
    PartsSpec(pieceLength, BLOCK_SIZE);
    forall i | 0 <= i < |p| ensures Lengths(p)[i] == parts[i] {
      BlockLengthField(pieceNumber, pieceLength, i);
    }
  }

  /** A block's length is in (0, 16384], so its `int32` conversion keeps it. */
  lemma BlockLengthField(pieceNumber: int, pieceLength: int, i: int)
    requires pieceLength > 0 && 0 <= i < BlockCount(pieceLength)
    ensures Block(pieceNumber, pieceLength, i).length as int == PartLength(pieceLength, BLOCK_SIZE, i)
  {
    CeilDivSpec(pieceLength, BLOCK_SIZE);
    assert 0 < PartLength(pieceLength, BLOCK_SIZE, i) <= BLOCK_SIZE;
  }

  /** Each block's fields fit in `int32`, so the conversions keep them. */
  lemma BlockFields(pieceNumber: int, pieceLength: int, i: int)
    requires MIN_INT32 <= pieceNumber <= MAX_INT32
    requires 0 < pieceLength <= MAX_INT32
    requires 0 <= i < BlockCount(pieceLength)
    ensures Block(pieceNumber, pieceLength, i).index as int == pieceNumber
    ensures Block(pieceNumber, pieceLength, i).begin as int == BLOCK_SIZE * i
    ensures Block(pieceNumber, pieceLength, i).length as int == PartLength(pieceLength, BLOCK_SIZE, i)
  {
    var c := BlockCount(pieceLength);
    CeilDivSpec(pieceLength, BLOCK_SIZE);
    assert BLOCK_SIZE * i <= BLOCK_SIZE * (c - 1) < pieceLength;
    assert 0 < PartLength(pieceLength, BLOCK_SIZE, i) <= BLOCK_SIZE;
  }

  /**
   * The block loop of one piece: for each of the piece's blocks, the piece
   * number, the block's offset and the block's size, each converted to `int32`.
   */
  method BlockRequests(pieceNumber: int, pieceLength: int) returns (requests: seq<BlockRequest>)
    ensures requests == BlockPlan(pieceNumber, pieceLength)
  {
    var noOfBlocks := CeilDiv(pieceLength, BLOCK_SIZE);
    requests := [];
    var i := 0;
    while i < noOfBlocks
      invariant 0 <= i && (i <= noOfBlocks || i == 0)
      invariant |requests| == i
      invariant forall j :: 0 <= j < i ==> requests[j] == Block(pieceNumber, pieceLength, j)
    {
      var blockSize := BLOCK_SIZE;
      if i == noOfBlocks - 1 {
        blockSize := pieceLength - (noOfBlocks - 1) * BLOCK_SIZE;
      }
      requests := requests + [BlockRequest(Wrap32(pieceNumber), Wrap32(BLOCK_SIZE * i), Wrap32(blockSize))];
      i := i + 1;
    }
    CeilDivSpec(pieceLength, BLOCK_SIZE);
  }

  /**
   * The requests for one piece of a download: the piece's own length (the
   * remainder for the last piece) cut into blocks.
   */
  method PieceRequests(length: int, pieceLength: int, pieceNumber: int) returns (requests: seq<BlockRequest>)
    requires pieceLength > 0
    ensures requests == BlockPlan(pieceNumber, PieceLength(length, pieceLength, pieceNumber))
  {
    var thisLength := pieceLength;
    var noOfPieces := CeilDiv(length, pieceLength);
    if pieceNumber == noOfPieces - 1 {
      thisLength := length - (noOfPieces - 1) * pieceLength;
    }
    requests := BlockRequests(pieceNumber, thisLength);
  }

  /** The requests of a whole download: piece after piece, each cut into blocks. */
  function FilePlan(length: int, pieceLength: int): seq<seq<BlockRequest>>
    requires pieceLength > 0
  {
    seq(if length > 0 then PieceCount(length, pieceLength) else 0,
      k => BlockPlan(k, PieceLength(length, pieceLength, k)))
  }

  /**
   * The piece loop of a whole download, which narrows `pieceLength` to the
   * remainder before the last piece.
   */
  method FileRequests(fileLength: int, pieceLength: int) returns (plan: seq<seq<BlockRequest>>)
    requires pieceLength > 0
    ensures plan == FilePlan(fileLength, pieceLength)
  {
    var noOfPieces := CeilDiv(fileLength, pieceLength);
    var currentLength := pieceLength;
    plan := [];
    var pieceNumber := 0;
    while pieceNumber < noOfPieces
      invariant 0 <= pieceNumber && (pieceNumber <= noOfPieces || pieceNumber == 0)
      invariant pieceNumber < noOfPieces ==> currentLength == pieceLength
      invariant |plan| == pieceNumber
      invariant forall k :: 0 <= k < pieceNumber ==> plan[k] == BlockPlan(k, PieceLength(fileLength, pieceLength, k))
    {
      if pieceNumber == noOfPieces - 1 {
        currentLength := fileLength - (noOfPieces - 1) * currentLength;
      }
      var requests := BlockRequests(pieceNumber, currentLength);
      plan := plan + [requests];
      pieceNumber := pieceNumber + 1;
    }
    CeilDivSpec(fileLength, pieceLength);
  }

  /** For each piece of a plan, the total length of its blocks. */
  function PieceTotals(plan: seq<seq<BlockRequest>>): (r: seq<int>)
    ensures |r| == |plan|
  {
    seq(|plan|, k requires 0 <= k < |plan| => Sum(Lengths(plan[k])))
  }

  /** The blocks of piece `k` of a download add up to that piece's length. */
  lemma PieceTotal(length: int, pieceLength: int, k: int)
    requires 0 < pieceLength && length > 0
    requires 0 <= k < PieceCount(length, pieceLength)
    ensures PieceTotals(FilePlan(length, pieceLength))[k] == Parts(length, pieceLength)[k]
  {
    PiecesSpec(length, pieceLength);
    var parts := Parts(length, pieceLength);
    assert parts[k] == PieceLength(length, pieceLength, k);
    assert 0 < parts[k] by {
      if k < PieceCount(length, pieceLength) - 1 {
        assert parts[k] == pieceLength;
      }
    }
    BlockLengths(k, parts[k]);
  }

  /**
   * The blocks of each piece add up to that piece's length and these add up
   * to the whole content: every byte is requested once.
   */
  lemma FilePlanCovers(length: int, pieceLength: int)
    requires 0 < pieceLength && length > 0
    ensures PieceTotals(FilePlan(length, pieceLength)) == Parts(length, pieceLength)
    ensures Sum(PieceTotals(FilePlan(length, pieceLength))) == length
  {
    var totals := PieceTotals(FilePlan(length, pieceLength));
    var parts := Parts(length, pieceLength);
    PiecesSpec(length, pieceLength);
    forall k | 0 <= k < |parts| ensures totals[k] == parts[k] {
      PieceTotal(length, pieceLength, k);
    }
  }

  /**
   * The `pieces` string cut into consecutive 20-byte SHA-1 hashes. The source
   * slices past the end, and so panics, when the length is not a multiple of
   * 20: that is None here.
   */
  method SplitPieceHashes(pcs: Bytes) returns (r: Option<seq<Bytes>>)
    ensures r.Some? <==> |pcs| % 20 == 0
    ensures r.Some? ==> |r.value| == |pcs| / 20
    ensures r.Some? ==> forall k :: 0 <= k < |r.value| ==> r.value[k] == pcs[20 * k..20 * k + 20]
  {
    var pieces: seq<Bytes> := [];
    var i := 0;
    while i < |pcs|
      invariant 0 <= i <= |pcs| && i % 20 == 0
      invariant |pieces| == i / 20
      invariant forall k :: 0 <= k < |pieces| ==> 20 * k + 20 <= |pcs| && pieces[k] == pcs[20 * k..20 * k + 20]
    {
      if i + 20 > |pcs| {
        return None;
      }
      pieces := pieces + [pcs[i..i + 20]];
      i := i + 20;
    }
    assert i == |pcs|;
    return Some(pieces);
  }

  /** The concatenation of a sequence of byte strings. */
  function Concat(parts: seq<Bytes>): Bytes {
    if parts == [] then [] else Concat(parts[..|parts| - 1]) + parts[|parts| - 1]
  }

  /** Consecutive 20-byte slices of `pcs` put back together give `pcs`: the split loses and reorders nothing. */
  lemma {:induction false} HashesConcat(pcs: Bytes, hashes: seq<Bytes>)
    requires |pcs| == 20 * |hashes|
    requires forall k :: 0 <= k < |hashes| ==> hashes[k] == pcs[20 * k..20 * k + 20]
    ensures Concat(hashes) == pcs
  {
    if hashes != [] {
      var n := |hashes| - 1;
      var front := pcs[..20 * n];
      forall k | 0 <= k < n ensures hashes[..n][k] == front[20 * k..20 * k + 20] {
        assert hashes[k] == pcs[20 * k..20 * k + 20];
      }
      HashesConcat(front, hashes[..n]);
      assert pcs == front + pcs[20 * n..];
    }
  }
}
