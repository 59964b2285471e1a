/** The proxy simulation step `compute` (main.cpp:11-42): it fills one rank's
    slab buffer with samples of a noise field at global coordinates.

    The noise generator is `PerlinNoise` seeded with 0, built afresh on every
    call (main.cpp:23), so each call samples the same fixed function. It is a
    parameter here: `noise(x, y, z, t)` is the value the generator yields for
    grid point `(x, y, z)` at timestep `t`. Scalars are modelled as `real`. */
module FieldSampler {
  import opened Decomposition

  /** The field value at grid point `(x, y, z)` and timestep `t`. */
  type Noise = (int, int, int, int) -> real

  function SampleAt(noise: Noise, p: Point, time: int): real
  {
    noise(p.x, p.y, p.z, time)
  }

  /** The samples of the box `[0, dim) x [0, dim) x [z0, z0 + depth)` at `time`,
      in buffer order: offset `k` holds the sample of the point stored there. */
  function Sampled(noise: Noise, dim: nat, z0: int, depth: nat, time: int): (s: seq<real>)
    ensures |s| == dim * dim * depth
  {
    seq(dim * dim * depth, k requires 0 <= k < dim * dim * depth =>
      LocalIndexOfPoint(k, z0, dim, depth);
      SampleAt(noise, LocalPoint(k, z0, dim), time))
  }

  /** Buffer `s` holds, at the offset of every point of the box, that point's sample. */
  ghost predicate HoldsSamples(s: seq<real>, noise: Noise, dim: nat, z0: int, depth: nat, time: int)
  {
    && |s| == dim * dim * depth
    && forall p :: InBox(p, z0, dim, depth) ==>
         0 <= LocalIndex(p, z0, dim) < |s| && s[LocalIndex(p, z0, dim)] == SampleAt(noise, p, time)
  }

  /** `Sampled` puts each box point's sample at that point's offset. */
  lemma SampledAtPoint(noise: Noise, dim: nat, z0: int, depth: nat, time: int, p: Point)
    requires InBox(p, z0, dim, depth)
    ensures 0 <= LocalIndex(p, z0, dim) < dim * dim * depth
    ensures Sampled(noise, dim, z0, depth, time)[LocalIndex(p, z0, dim)] == SampleAt(noise, p, time)
  {
    LocalIndexInBounds(p, z0, dim, depth);
    LocalPointOfIndex(p, z0, dim, depth);
  }

  /** A buffer of the right length that holds every box point's sample at
      that point's offset is exactly `Sampled`: nothing else is left in it. */
  lemma HoldsSamplesIsSampled(s: seq<real>, noise: Noise, dim: nat, z0: int, depth: nat, time: int)
    requires HoldsSamples(s, noise, dim, z0, depth, time)
    ensures s == Sampled(noise, dim, z0, depth, time)
  {
    var t := Sampled(noise, dim, z0, depth, time);
    forall k | 0 <= k < |s| ensures s[k] == t[k] {
      LocalIndexOfPoint(k, z0, dim, depth);
      var p := LocalPoint(k, z0, dim);
      assert LocalIndex(p, z0, dim) == k;
    }
  }

  /** `p` is visited before `(x, y, z)` by the loops of `compute`, which run
      X outermost, then Y, then Z innermost (main.cpp:28-30). */
  predicate VisitedBefore(p: Point, x: int, y: int, z: int)
  {
    p.x < x || (p.x == x && (p.y < y || (p.y == y && p.z < z)))
  }

  /** Every box point visited before `(x, y, z)` holds its sample. */
  ghost predicate FilledBefore(s: seq<real>, noise: Noise, dim: nat, z0: int, depth: nat, time: int,
                               x: int, y: int, z: int)
  {
    forall p :: InBox(p, z0, dim, depth) && VisitedBefore(p, x, y, z) ==>
      0 <= LocalIndex(p, z0, dim) < |s| && s[LocalIndex(p, z0, dim)] == SampleAt(noise, p, time)
  }

  /** `compute` (main.cpp:11-42): fills the buffer of rank `iRank` with the
      samples of its slab at timestep `time`, writing offset
      `(z - z0) * dim * dim + y * dim + x` for every point of the slab, and
      returns 1. The result depends only on the arguments, never on what the
      buffer held before. */
  method Compute(data: array<real>, iRank: nat, dim: nat, rankDimZ: nat, time: int, noise: Noise)
    returns (status: int)
    requires data.Length == dim * dim * rankDimZ
    modifies data
    ensures status == 1
    ensures data[..] == Sampled(noise, dim, SlabStart(iRank, rankDimZ), rankDimZ, time)
  {
    var z0 := rankDimZ * iRank;
    var zN := z0 + rankDimZ;
    for x := 0 to dim
      invariant FilledBefore(data[..], noise, dim, z0, rankDimZ, time, x, 0, z0)
    {
      for y := 0 to dim
        invariant FilledBefore(data[..], noise, dim, z0, rankDimZ, time, x, y, z0)
      {
        for z := z0 to zN
          invariant FilledBefore(data[..], noise, dim, z0, rankDimZ, time, x, y, z)
        {
          var cur := Point(x, y, z);
          var idx := (z - z0) * dim * dim + y * dim + x;
          assert idx == LocalIndex(cur, z0, dim);
          LocalIndexInBounds(cur, z0, dim, rankDimZ);
          ghost var before := data[..];
          forall p | InBox(p, z0, dim, rankDimZ) && VisitedBefore(p, x, y, z)
            ensures LocalIndex(p, z0, dim) != idx
          {
            LocalPointOfIndex(p, z0, dim, rankDimZ);
            LocalPointOfIndex(cur, z0, dim, rankDimZ);
          }
          data[idx] := noise(x, y, z, time);
          assert data[..] == before[idx := noise(x, y, z, time)];
        }
      }
    }
    assert HoldsSamples(data[..], noise, dim, z0, rankDimZ, time);
    HoldsSamplesIsSampled(data[..], noise, dim, z0, rankDimZ, time);
    status := 1;
  }
}
