/** Slab decomposition of the cubic volume along Z (main.cpp) and the flat
    row-major index map of a slab buffer. Every rank owns `dim / nRanks`
    consecutive Z layers; X and Y always span the whole edge `dim`. */
module Decomposition {
  import opened Arith

  /** Number of Z layers each rank owns (main.cpp:82): the floor of
      `dim / nRanks`, characterised without division. */
  function RankDimZ(dim: nat, nRanks: nat): (d: nat)
    requires nRanks > 0
    ensures d * nRanks <= dim < d * nRanks + nRanks
  {
    dim / nRanks
  }

  /** First Z layer of rank `iRank`'s slab (main.cpp:20). */
  function SlabStart(iRank: nat, rankDimZ: nat): nat
  {
    rankDimZ * iRank
  }

  /** One past the last Z layer of rank `iRank`'s slab (main.cpp:21). */
  function SlabEnd(iRank: nat, rankDimZ: nat): nat
  {
    SlabStart(iRank, rankDimZ) + rankDimZ
  }

  /** Layer `z` lies in the half-open range `[SlabStart, SlabEnd)` of rank `iRank`. */
  predicate InSlab(z: int, iRank: nat, rankDimZ: nat)
  {
    SlabStart(iRank, rankDimZ) <= z < SlabEnd(iRank, rankDimZ)
  }

  /** Rank `i`'s slab ends exactly where rank `i + 1`'s starts. */
  lemma SlabsAdjacent(iRank: nat, rankDimZ: nat)
    ensures SlabEnd(iRank, rankDimZ) == SlabStart(iRank + 1, rankDimZ)
  {
    assert rankDimZ * (iRank + 1) == rankDimZ * iRank + rankDimZ;
  }

  /** A lower rank's slab lies entirely below a higher rank's slab. */
  lemma SlabsOrdered(i: nat, j: nat, rankDimZ: nat)
    requires i < j
    ensures SlabEnd(i, rankDimZ) <= SlabStart(j, rankDimZ)
  {
    var gap: nat := j - (i + 1);
    assert rankDimZ * j == rankDimZ * (i + 1) + rankDimZ * gap;
    SlabsAdjacent(i, rankDimZ);
  }

  /** Slabs of distinct ranks share no layer. */
  lemma SlabsDisjoint(i: nat, j: nat, rankDimZ: nat, z: int)
    requires i != j && InSlab(z, i, rankDimZ)
    ensures !InSlab(z, j, rankDimZ)
  {
    if i < j {
      SlabsOrdered(i, j, rankDimZ);
    } else {
      SlabsOrdered(j, i, rankDimZ);
    }
  }

  /** The rank whose slab holds layer `z`, and the only one. */
  function SlabOwner(z: nat, rankDimZ: nat): (i: nat)
    requires rankDimZ > 0
    ensures InSlab(z, i, rankDimZ)
    ensures forall j: nat :: InSlab(z, j, rankDimZ) ==> j == i
  {
    var i := z / rankDimZ;
    DivModUnique(z, i, z % rankDimZ, rankDimZ);
    assert InSlab(z, i, rankDimZ);
    forall j: nat | InSlab(z, j, rankDimZ) ensures j == i {
      if j != i { SlabsDisjoint(i, j, rankDimZ, z); }
    }
    i
  }

  /** The slabs of ranks `0 .. nRanks-1` together hold exactly the layers
      `[0, nRanks * rankDimZ)`. */
  lemma SlabsCover(nRanks: nat, rankDimZ: nat, z: int)
    ensures (exists i: nat :: i < nRanks && InSlab(z, i, rankDimZ)) <==> 0 <= z < nRanks * rankDimZ
  {
    if 0 <= z < nRanks * rankDimZ {
      assert rankDimZ > 0;
      var i := SlabOwner(z, rankDimZ);
      assert i * rankDimZ <= z < nRanks * rankDimZ;
      MulCancelLess(i, nRanks, rankDimZ);
    }
    if exists i: nat :: i < nRanks && InSlab(z, i, rankDimZ) {
      var i: nat :| i < nRanks && InSlab(z, i, rankDimZ);
      SlabsAdjacent(i, rankDimZ);
      MulLeMono(i + 1, nRanks, rankDimZ);
      assert SlabStart(i + 1, rankDimZ) == (i + 1) * rankDimZ;
    }
  }

  /** With `rankDimZ = dim / nRanks`, the top `dim % nRanks` layers of the
      volume belong to no rank: a layer below `dim` is sampled exactly when
      it lies below `dim - dim % nRanks`. */
  lemma RemainderLayersDropped(dim: nat, nRanks: nat, z: int)
    requires nRanks > 0
    ensures nRanks * RankDimZ(dim, nRanks) == dim - dim % nRanks
    ensures 0 <= z < dim ==>
      ((exists i: nat :: i < nRanks && InSlab(z, i, RankDimZ(dim, nRanks))) <==> z < dim - dim % nRanks)
  {
    DivModUnique(dim, dim / nRanks, dim % nRanks, nRanks);
    SlabsCover(nRanks, RankDimZ(dim, nRanks), z);
  }

  /** The Z layers of rank `iRank`'s slab, lowest first. */
  function SlabLayers(iRank: nat, rankDimZ: nat): (layers: seq<int>)
    ensures |layers| == rankDimZ
    ensures forall k :: 0 <= k < |layers| ==> InSlab(layers[k], iRank, rankDimZ)
  {
    seq(rankDimZ, k requires 0 <= k < rankDimZ => SlabStart(iRank, rankDimZ) + k)
  }

  /** The layers of the slabs of ranks `0 .. nRanks-1`, concatenated in rank order. */
  function LayersInRankOrder(nRanks: nat, rankDimZ: nat): seq<int>
  {
    if nRanks == 0 then [] else LayersInRankOrder(nRanks - 1, rankDimZ) + SlabLayers(nRanks - 1, rankDimZ)
  }

  /** Taken in rank order, the slabs list every layer of `[0, nRanks * rankDimZ)`
      exactly once and in increasing order. */
  lemma {:induction false} LayersInRankOrderAreRange(nRanks: nat, rankDimZ: nat)
    ensures LayersInRankOrder(nRanks, rankDimZ) == seq(nRanks * rankDimZ, z requires 0 <= z < nRanks * rankDimZ => z)
  {
    if nRanks > 0 {
      LayersInRankOrderAreRange(nRanks - 1, rankDimZ);
      var prefix := LayersInRankOrder(nRanks - 1, rankDimZ);
      var n := (nRanks - 1) * rankDimZ;
      assert nRanks * rankDimZ == n + rankDimZ;
      assert SlabStart(nRanks - 1, rankDimZ) == n;
      assert |prefix| == n;
      forall z | 0 <= z < nRanks * rankDimZ
        ensures LayersInRankOrder(nRanks, rankDimZ)[z] == z
      {
        if z >= n {
          assert LayersInRankOrder(nRanks, rankDimZ)[z] == SlabLayers(nRanks - 1, rankDimZ)[z - n];
        }
      }
    }
  }

  /** A grid point in global coordinates. */
  datatype Point = Point(x: int, y: int, z: int)

  /** `p` lies in the box `[0, dim) x [0, dim) x [z0, z0 + depth)`. */
  predicate InBox(p: Point, z0: int, dim: int, depth: int)
  {
    0 <= p.x < dim && 0 <= p.y < dim && z0 <= p.z < z0 + depth
  }

  /** Flat offset of point `(x, y, z)` in the buffer of a slab whose first
      layer is `z0` (main.cpp:31): X varies fastest, then Y, then Z. */
  function LocalIndex(p: Point, z0: int, dim: int): int
  {
    (p.z - z0) * dim * dim + p.y * dim + p.x
  }

  /** The point stored at offset `idx` of a slab buffer whose first layer is `z0`. */
  function LocalPoint(idx: nat, z0: int, dim: nat): Point
    requires dim > 0
  {
    Point(idx % dim, (idx / dim) % dim, z0 + idx / (dim * dim))
  }

  /** Every offset of a point of the slab box lies inside a buffer of
      `dim * dim * depth` elements (main.cpp:31, main.cpp:109-111). */
  lemma LocalIndexInBounds(p: Point, z0: int, dim: nat, depth: nat)
    requires InBox(p, z0, dim, depth)
    ensures 0 <= LocalIndex(p, z0, dim) < dim * dim * depth
  {
    var dz := p.z - z0;
    MixedRadixBound(p.y, p.x, dim, dim);
    MixedRadixBound(dz, p.y * dim + p.x, dim * dim, depth);
    assert LocalIndex(p, z0, dim) == dz * (dim * dim) + (p.y * dim + p.x);
    assert depth * (dim * dim) == dim * dim * depth;
  }

  /** Decoding the offset of a box point gives the point back, so distinct
      points of the box have distinct offsets. */
  lemma LocalPointOfIndex(p: Point, z0: int, dim: nat, depth: nat)
    requires InBox(p, z0, dim, depth)
    ensures 0 <= LocalIndex(p, z0, dim) && dim > 0 && LocalPoint(LocalIndex(p, z0, dim), z0, dim) == p
  {
    var dz: nat := p.z - z0;
    LocalIndexInBounds(p, z0, dim, depth);
    MixedRadixDecode(dz, p.y, p.x, dim);
  }

  /** Every offset of a `dim * dim * depth` buffer decodes to a box point
      whose offset it is: the index map is onto the buffer. */
  lemma LocalIndexOfPoint(idx: nat, z0: int, dim: nat, depth: nat)
    requires idx < dim * dim * depth
    ensures dim > 0 && InBox(LocalPoint(idx, z0, dim), z0, dim, depth)
    ensures LocalIndex(LocalPoint(idx, z0, dim), z0, dim) == idx
  {
    assert dim > 0;
    MixedRadixEncode(idx, dim);
    QuotientBound(idx, dim * dim, depth);
  }
}
