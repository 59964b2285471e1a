/** The gather of all slab buffers onto rank 0 (main.cpp:109-116,
    main.cpp:146-155). `MPI_Gather` with a fixed count of `nRankValues` per
    rank places rank `r`'s buffer at offset `r * nRankValues` of the receive
    buffer; its result is the concatenation of the buffers in rank order. */
module Assembly {
  import opened Arith
  import opened Decomposition
  import opened FieldSampler

  /** The receive buffer of the gather: the rank buffers concatenated in rank order. */
  function Gather<T>(frames: seq<seq<T>>): seq<T>
  {
    if |frames| == 0 then [] else Gather(frames[..|frames| - 1]) + frames[|frames| - 1]
  }

  /** Every rank buffer holds `n` values. */
  predicate Uniform<T>(frames: seq<seq<T>>, n: nat)
  {
    forall r :: 0 <= r < |frames| ==> |frames[r]| == n
  }

  /** With every rank sending `n` values, the gathered buffer holds `|frames| * n`. */
  lemma {:induction false} GatherLength<T>(frames: seq<seq<T>>, n: nat)
    requires Uniform(frames, n)
    ensures |Gather(frames)| == |frames| * n
  {
    if |frames| > 0 {
      var m := |frames| - 1;
      assert Uniform(frames[..m], n);
      GatherLength(frames[..m], n);
      assert |frames| * n == m * n + n;
    }
  }

  /** Value `k` of rank `r`'s buffer lands at offset `r * n + k` of the
      gathered buffer: rank `r`'s buffer occupies `[r * n, (r + 1) * n)`. */
  lemma {:induction false} GatherAt<T>(frames: seq<seq<T>>, n: nat, r: nat, k: nat)
    requires Uniform(frames, n) && r < |frames| && k < n
    ensures r * n + k < |Gather(frames)| && Gather(frames)[r * n + k] == frames[r][k]
  {
    var m := |frames| - 1;
    var prefix := frames[..m];
    assert Uniform(prefix, n);
    GatherLength(frames, n);
    GatherLength(prefix, n);
    assert Gather(frames) == Gather(prefix) + frames[m];
    if r < m {
      GatherAt(prefix, n, r, k);
      assert prefix[r] == frames[r];
    } else {
      assert r * n + k - |Gather(prefix)| == k;
    }
  }

  /** Number of values each rank sends (main.cpp:109). */
  function RankValueCount(dim: nat, rankDimZ: nat): nat
  {
    dim * dim * rankDimZ
  }

  /** Number of values rank 0 receives (main.cpp:110). */
  function CombinedValueCount(dim: nat, nRanks: nat): nat
    requires nRanks > 0
  {
    RankValueCount(dim, RankDimZ(dim, nRanks)) * nRanks
  }

  /** The gathered frame falls short of the cube by the `dim % nRanks`
      dropped layers of `dim * dim` values each. */
  lemma CombinedCountDeficit(dim: nat, nRanks: nat)
    requires nRanks > 0
    ensures CombinedValueCount(dim, nRanks) + (dim % nRanks) * (dim * dim) == dim * dim * dim
  {
    var d, rem, sq := RankDimZ(dim, nRanks), dim % nRanks, dim * dim;
    RemainderLayersDropped(dim, nRanks, 0);
    CombinedCountIsLayers(dim, nRanks);
    assert sq * (nRanks * d) == (nRanks * d) * sq;
    MulAddDistrib(dim - rem, rem, sq);
    assert dim * sq == dim * dim * dim;
  }

  /** The gathered frame holds `dim * dim` values for each of the
      `nRanks * rankDimZ` sampled layers. */
  lemma CombinedCountIsLayers(dim: nat, nRanks: nat)
    requires nRanks > 0
    ensures CombinedValueCount(dim, nRanks) == dim * dim * (nRanks * RankDimZ(dim, nRanks))
  {
    var d, sq := RankDimZ(dim, nRanks), dim * dim;
    assert CombinedValueCount(dim, nRanks) == sq * d * nRanks;
    assert sq * d * nRanks == sq * (nRanks * d);
  }

  /** The gathered frame has `dim * dim * dim` values exactly when `nRanks`
      divides `dim`; otherwise it is shorter than the cube it is later
      declared to be (PostProcessing.cpp:96). */
  lemma CombinedCountVersusCube(dim: nat, nRanks: nat)
    requires nRanks > 0
    ensures CombinedValueCount(dim, nRanks) <= dim * dim * dim
    ensures CombinedValueCount(dim, nRanks) == dim * dim * dim <==> dim % nRanks == 0
  {
    CombinedCountDeficit(dim, nRanks);
    var rem := dim % nRanks;
    if rem != 0 {
      MulPositiveAtLeast(dim, dim);
      MulPositiveAtLeast(rem, dim * dim);
    }
  }

  /** The buffers of all ranks at one timestep, as `compute` leaves them. */
  function RankFrames(noise: Noise, dim: nat, nRanks: nat, rankDimZ: nat, time: int): (frames: seq<seq<real>>)
    ensures |frames| == nRanks
    ensures forall r :: 0 <= r < nRanks ==> |frames[r]| == RankValueCount(dim, rankDimZ)
  {
    seq(nRanks, r requires 0 <= r < nRanks => Sampled(noise, dim, SlabStart(r, rankDimZ), rankDimZ, time))
  }

  /** Samples of a box of `a + b` layers are those of its lower `a` layers
      followed by those of its upper `b` layers. */
  lemma SampledSplit(noise: Noise, dim: nat, z0: int, a: nat, b: nat, time: int)
    ensures Sampled(noise, dim, z0, a + b, time)
         == Sampled(noise, dim, z0, a, time) + Sampled(noise, dim, z0 + a, b, time)
  {
    var whole := Sampled(noise, dim, z0, a + b, time);
    var lower := Sampled(noise, dim, z0, a, time);
    var upper := Sampled(noise, dim, z0 + a, b, time);
    var n := dim * dim * a;
    assert dim * dim * (a + b) == n + dim * dim * b;
    forall k | 0 <= k < |whole| ensures whole[k] == (lower + upper)[k] {
      if k >= n {
        var j := k - n;
        assert k == (a * dim) * dim + j;
        DivModAddMultiple(a * dim, dim, j);
        DivModAddMultiple(a, dim, j / dim);
        assert k == a * (dim * dim) + j;
        DivModAddMultiple(a, dim * dim, j);
        assert LocalPoint(k, z0, dim) == LocalPoint(j, z0 + a, dim);
      }
    }
  }

  /** The frame gathered from ranks `0 .. nRanks-1` is the sample of the
      box of the lowest `nRanks * rankDimZ` layers of the volume, in the
      global row-major layout. */
  lemma {:induction false} GatheredFrameIsGlobalLayout(noise: Noise, dim: nat, nRanks: nat, rankDimZ: nat, time: int)
    ensures Gather(RankFrames(noise, dim, nRanks, rankDimZ, time))
         == Sampled(noise, dim, 0, nRanks * rankDimZ, time)
  {
    if nRanks > 0 {
      var frames := RankFrames(noise, dim, nRanks, rankDimZ, time);
      assert frames[..nRanks - 1] == RankFrames(noise, dim, nRanks - 1, rankDimZ, time);
      GatheredFrameIsGlobalLayout(noise, dim, nRanks - 1, rankDimZ, time);
      var lowLayers := (nRanks - 1) * rankDimZ;
      assert nRanks * rankDimZ == lowLayers + rankDimZ;
      assert SlabStart(nRanks - 1, rankDimZ) == lowLayers;
      SampledSplit(noise, dim, 0, lowLayers, rankDimZ, time);
    }
  }

  /** On rank 0, after the gather, grid point `(x, y, z)` of a sampled layer
      is found at combined offset `z * dim * dim + y * dim + x` and holds its
      own sample; the offsets of the sampled points are exactly
      `[0, nCombinedValues)`. */
  lemma CombinedOffsetOfPoint(noise: Noise, dim: nat, nRanks: nat, time: int, p: Point)
    requires nRanks > 0
    requires InBox(p, 0, dim, nRanks * RankDimZ(dim, nRanks))
    ensures var combined := Gather(RankFrames(noise, dim, nRanks, RankDimZ(dim, nRanks), time));
      && |combined| == CombinedValueCount(dim, nRanks)
      && 0 <= p.z * dim * dim + p.y * dim + p.x < |combined|
      && combined[p.z * dim * dim + p.y * dim + p.x] == noise(p.x, p.y, p.z, time)
  {
    var d := RankDimZ(dim, nRanks);
    var layers := nRanks * d;
    GatheredFrameIsGlobalLayout(noise, dim, nRanks, d, time);
    CombinedCountIsLayers(dim, nRanks);
    SampledAtPoint(noise, dim, 0, layers, time, p);
    assert LocalIndex(p, 0, dim) == p.z * dim * dim + p.y * dim + p.x;
  }
}
